/** Name checks of the OSM reader and exporter: the file-extension test,
    made case-insensitively on the source name and case-sensitively on the
    export names, and the case-insensitive comparison of the root tag. */
module Names {

  /** The expected extension and root tag. */
  const Osm: string := "osm"

  /** The text after the last '.' of `s`, or all of `s` when it has no '.':
      what Python's `s.split('.')[-1]` gives. */
  function LastSegment(s: string): string
  {
    if s == [] then []
    else if s[|s| - 1] == '.' then []
    else LastSegment(s[..|s| - 1]) + [s[|s| - 1]]
  }

  /** The last segment is the longest suffix without a dot: it has no dot,
      it ends `s`, and when it is not all of `s` a dot stands just before it. */
  lemma {:induction false} LastSegmentSpec(s: string)
    ensures '.' !in LastSegment(s)
    ensures |LastSegment(s)| <= |s| && LastSegment(s) == s[|s| - |LastSegment(s)|..]
    ensures |LastSegment(s)| < |s| ==> s[|s| - |LastSegment(s)| - 1] == '.'
  {
    if s != [] && s[|s| - 1] != '.' {
      var init, c := s[..|s| - 1], s[|s| - 1];
      LastSegmentSpec(init);
      var r', r := LastSegment(init), LastSegment(s);
      assert r == r' + [c];
      var start := |init| - |r'|;
      assert s == init + [c];
      assert s[start..] == init[start..] + [c];
      if |r| < |s| {
        assert s[start - 1] == init[start - 1];
      }
    }
  }

  /** ASCII lower-casing of one character. */
  function LowerChar(c: char): char
  {
    if 'A' <= c <= 'Z' then (c as int + 32) as char else c
  }

  /** `s.lower()`, restricted to ASCII letters. */
  function Lower(s: string): string
  {
    seq(|s|, i requires 0 <= i < |s| => LowerChar(s[i]))
  }

  /** The test on the source file name: its extension, lower-cased, is `osm`. */
  predicate IsOsmSourceName(name: string)
  {
    Lower(LastSegment(name)) == Osm
  }

  /** The test on an export file name: its extension is exactly `osm`. */
  predicate IsOsmExportName(name: string)
  {
    LastSegment(name) == Osm
  }

  /** Lower-casing equals `osm` exactly for the eight spellings of "osm" in
      upper and lower case. */
  lemma LowerIsOsm(s: string)
    ensures Lower(s) == Osm <==>
      |s| == 3 && (s[0] == 'o' || s[0] == 'O') && (s[1] == 's' || s[1] == 'S') && (s[2] == 'm' || s[2] == 'M')
  {
    if Lower(s) == Osm {
      assert Lower(s)[0] == 'o' && Lower(s)[1] == 's' && Lower(s)[2] == 'm';
    }
    if |s| == 3 && (s[0] == 'o' || s[0] == 'O') && (s[1] == 's' || s[1] == 'S') && (s[2] == 'm' || s[2] == 'M') {
      assert Lower(s) == [Lower(s)[0], Lower(s)[1], Lower(s)[2]];
    }
  }

  /** A name without a dot is its own last segment. */
  lemma NoDotName(name: string)
    requires '.' !in name
    ensures LastSegment(name) == name
  {
    LastSegmentSpec(name);
  }

  /** With a dot at `k` and none after it, the last segment is what follows `k`. */
  lemma DottedName(name: string, k: nat)
    requires k < |name| && name[k] == '.' && '.' !in name[k + 1..]
    ensures LastSegment(name) == name[k + 1..]
  {
    LastSegmentSpec(name);
  }

  /** The source name passes exactly when it has no dot and lower-cases to
      `osm`, or when the text after its last dot lower-cases to `osm`. */
  lemma SourceNameAccepted(name: string)
    ensures IsOsmSourceName(name) <==>
      ('.' !in name && Lower(name) == Osm) ||
      (exists k :: 0 <= k < |name| && name[k] == '.' && '.' !in name[k + 1..] && Lower(name[k + 1..]) == Osm)
  {
    if '.' !in name {
      NoDotName(name);
    } else {
      LastSegmentSpec(name);
      var r := LastSegment(name);
      var k := |name| - |r| - 1;
      assert name[k] == '.' && name[k + 1..] == r;
      forall j | 0 <= j < |name| && name[j] == '.' && '.' !in name[j + 1..]
        ensures j == k
      {
        DottedName(name, j);
      }
    }
  }

  /** The export check is case-sensitive where the source check is not: a
      name the reader accepts as a source is refused as an export target. */
  lemma ExportCheckIsCaseSensitive()
    ensures IsOsmSourceName("data.OSM") && !IsOsmExportName("data.OSM")
  {
    DottedName("data.OSM", 4);
    assert "data.OSM"[5..] == "OSM";
    LowerIsOsm("OSM");
  }
}
