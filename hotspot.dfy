/**
 * The file-name shortening of the hotspot detail table: a hotspot's file name
 * loses the selected module's path and the separator after it.
 */
module Hotspot {
  import opened JsStrings

  /** One row of the detail table: the columns `fileName`, `commits`, `complexity`, `score`. */
  datatype FlatHotspot = FlatHotspot(fileName: string, commits: int, complexity: int, score: int)

  /**
   * `trimSegments(fileName, prefix)`: a name that starts with the prefix loses
   * the prefix and one more character; any other name is kept.
   */
  function TrimSegments(fileName: string, prefix: string): (r: string)
    ensures |r| <= |fileName| && r == fileName[|fileName| - |r|..]
    ensures !StartsWith(fileName, prefix) ==> r == fileName
  {
    if StartsWith(fileName, prefix) then Substring(fileName, |prefix| + 1) else fileName
  }

  /** A matching name loses exactly `|prefix| + 1` characters, or all of them if it is that short. */
  lemma TrimDropsPrefixAndOne(fileName: string, prefix: string)
    requires StartsWith(fileName, prefix)
    ensures |prefix| < |fileName| ==> TrimSegments(fileName, prefix) == fileName[|prefix| + 1..]
    ensures |fileName| == |prefix| ==> TrimSegments(fileName, prefix) == ""
  {
  }

  /** The character after the prefix is dropped whatever it is, a `/` or not. */
  lemma TrimAfterPrefix(prefix: string, c: char, rest: string)
    ensures TrimSegments(prefix + [c] + rest, prefix) == rest
  {
    var name := prefix + [c] + rest;
    assert name[..|prefix|] == prefix;
    assert name[|prefix| + 1..] == rest;
  }

  /** In particular a file directly below the module, `prefix + "/" + rest`, becomes `rest`. */
  lemma TrimModulePath(prefix: string, rest: string)
    ensures TrimSegments(prefix + "/" + rest, prefix) == rest
  {
    TrimAfterPrefix(prefix, '/', rest);
  }

  /** The module's own name trims to the empty string. */
  lemma TrimWholeName(prefix: string)
    ensures TrimSegments(prefix, prefix) == ""
  {
    assert prefix[..|prefix|] == prefix;
  }

  /** With no module selected every name matches and only its first character goes. */
  lemma TrimEmptyPrefix(fileName: string)
    ensures TrimSegments(fileName, "") == if fileName == "" then "" else fileName[1..]
  {
  }

  /** A name that does not start with the prefix is kept, and only such a name or the empty result can equal the input. */
  lemma TrimUnchangedIff(fileName: string, prefix: string)
    ensures TrimSegments(fileName, prefix) == fileName <==> !StartsWith(fileName, prefix) || fileName == ""
  {
  }

  /** `formatHotspots(hotspots)` with the selected module as a parameter. */
  function FormatHotspots(hotspots: seq<FlatHotspot>, selected: string): (r: seq<FlatHotspot>)
    ensures |r| == |hotspots|
    ensures forall i :: 0 <= i < |r| ==>
      r[i].fileName == TrimSegments(hotspots[i].fileName, selected) &&
      r[i].(fileName := hotspots[i].fileName) == hotspots[i]
  {
    seq(|hotspots|, i requires 0 <= i < |hotspots| => hotspots[i].(fileName := TrimSegments(hotspots[i].fileName, selected)))
  }

  /** Formatting a concatenation formats each part. */
  lemma FormatHotspotsAppend(a: seq<FlatHotspot>, b: seq<FlatHotspot>, selected: string)
    ensures FormatHotspots(a + b, selected) == FormatHotspots(a, selected) + FormatHotspots(b, selected)
  {
    var l, r := FormatHotspots(a + b, selected), FormatHotspots(a, selected) + FormatHotspots(b, selected);
    assert |l| == |r|;
    forall i | 0 <= i < |l| ensures l[i] == r[i] {
      if i < |a| {
        assert (a + b)[i] == a[i];
        assert r[i] == FormatHotspots(a, selected)[i];
      } else {
        assert (a + b)[i] == b[i - |a|];
        assert r[i] == FormatHotspots(b, selected)[i - |a|];
      }
    }
  }

  /** Rows outside the selected module pass through unchanged. */
  lemma FormatOutsideModule(hotspots: seq<FlatHotspot>, selected: string)
    requires forall i :: 0 <= i < |hotspots| ==> !StartsWith(hotspots[i].fileName, selected)
    ensures FormatHotspots(hotspots, selected) == hotspots
  {
  }
}
