/**
 * The two attributes of Python's `pathlib.PurePosixPath` the intake rules
 * read: `name`, the final path component, and `suffix`, its extension.
 */
module PurePath {
  import opened Strings

  /** Segments pathlib drops when it parses a path: empty ones and ".". */
  predicate Skipped(segment: string)
  {
    segment == "" || segment == "."
  }

  /** Index of the last segment pathlib keeps, or -1 when it keeps none. */
  function LastKept(segments: seq<string>): (i: int)
    ensures -1 <= i < |segments|
    ensures i == -1 <==> forall j :: 0 <= j < |segments| ==> Skipped(segments[j])
    ensures 0 <= i ==> !Skipped(segments[i])
    ensures forall j :: i < j < |segments| ==> Skipped(segments[j])
  {
    if segments == [] then -1
    else if !Skipped(segments[|segments| - 1]) then |segments| - 1
    else
      var init := segments[..|segments| - 1];
      assert forall j :: 0 <= j < |init| ==> init[j] == segments[j];
      LastKept(init)
  }

  /** The last segment pathlib keeps, or "" when it keeps none. */
  function LastComponent(segments: seq<string>): string
  {
    var i := LastKept(segments);
    if i < 0 then "" else segments[i]
  }

  /**
   * `Path(path).name`: the path is cut at every '/', empty and "."
   * segments are dropped, and the name is the last segment left ("" when
   * none is left, as for "/" or ".").
   */
  function Name(path: string): (r: string)
    ensures '/' !in r
    ensures r != "."
  {
    LastComponent(Split(path, '/'))
  }

  /**
   * `PurePath(name).suffix`: from the last '.' of the name to its end, but
   * only when that dot is neither the first nor the last character; ""
   * otherwise. The dot is kept.
   */
  function Suffix(name: string): (r: string)
    ensures r == "" || (2 <= |r| < |name| && r[0] == '.')
    ensures forall k :: 0 < k < |r| ==> r[k] != '.'
    ensures r == name[|name| - |r|..]
  {
    var i := LastIndexOf(name, '.');
    if 0 < i < |name| - 1 then name[i..] else ""
  }

  /**
   * The suffix is non-empty exactly when some dot other than the first and
   * last character has no dot after it, and it then starts at that dot.
   */
  lemma SuffixCharacterised(name: string)
    ensures Suffix(name) != "" <==>
              exists k :: 0 < k < |name| - 1 && name[k] == '.' && NoDotAfter(name, k)
    ensures forall k :: 0 < k < |name| - 1 && name[k] == '.' && NoDotAfter(name, k) ==>
              Suffix(name) == name[k..]
  {
    forall k | 0 < k < |name| - 1 && name[k] == '.' && NoDotAfter(name, k)
      ensures Suffix(name) == name[k..]
    {
      LastIndexOfUnique(name, '.', k);
    }
    if Suffix(name) != "" {
      var i := LastIndexOf(name, '.');
      assert 0 < i < |name| - 1 && name[i] == '.' && NoDotAfter(name, i);
    }
  }

  /** No '.' stands after index `k`. */
  predicate NoDotAfter(name: string, k: int)
  {
    forall j :: 0 <= j < |name| && k < j ==> name[j] != '.'
  }

  /** Lower-casing every segment. */
  function LowerEach(segments: seq<string>): seq<string>
  {
    seq(|segments|, i requires 0 <= i < |segments| => Lower(segments[i]))
  }

  /** Lower-casing a list built from its head and tail. */
  lemma LowerEachCons(head: string, tail: seq<string>)
    ensures LowerEach([head] + tail) == [Lower(head)] + LowerEach(tail)
  {
  }

  /** Lower-casing before splitting on a non-letter gives the lower-cased segments. */
  lemma {:induction false} SplitLower(s: string, sep: char)
    requires !('a' <= sep <= 'z') && !('A' <= sep <= 'Z')
    ensures Split(Lower(s), sep) == LowerEach(Split(s, sep))
  {
    if s != [] {
      var c, t := s[0], s[1..];
      assert s == [c] + t;
      LowerAppend([c], t);
      var lc := Lower([c])[0];
      assert Lower([c]) == [lc];
      SplitLower(t, sep);
      var rest := Split(t, sep);
      if c == sep {
        SplitAfterSeparator(t, sep);
        SplitAfterSeparator(Lower(t), sep);
        LowerEachCons("", rest);
      } else {
        SplitPrefix([c], t, sep);
        SplitPrefix([lc], Lower(t), sep);
        LowerAppend([c], rest[0]);
        LowerEachCons([c] + rest[0], rest[1..]);
        LowerEachCons(rest[0], rest[1..]);
        assert rest == [rest[0]] + rest[1..];
      }
    }
  }

  /** Lower-casing changes neither emptiness nor being ".". */
  lemma SkippedLower(segment: string)
    ensures Skipped(Lower(segment)) <==> Skipped(segment)
  {
    if Lower(segment) == "." {
      assert segment[0] == '.';
      assert segment == ".";
    }
  }

  lemma {:induction false} LastComponentLower(segments: seq<string>)
    ensures LastComponent(LowerEach(segments)) == Lower(LastComponent(segments))
  {
    if segments != [] {
      var n := |segments| - 1;
      SkippedLower(segments[n]);
      if Skipped(segments[n]) {
        LastComponentLower(segments[..n]);
        assert LowerEach(segments)[..n] == LowerEach(segments[..n]);
        assert LastKept(LowerEach(segments)) == LastKept(LowerEach(segments[..n]));
        assert LastKept(segments) == LastKept(segments[..n]);
      }
    }
  }

  /** The name of a lower-cased path is the lower-cased name. */
  lemma NameLower(path: string)
    ensures Name(Lower(path)) == Lower(Name(path))
  {
    SplitLower(path, '/');
    LastComponentLower(Split(path, '/'));
  }

  /** Lower-casing moves no dot. */
  lemma LastDotLower(s: string)
    ensures LastIndexOf(Lower(s), '.') == LastIndexOf(s, '.')
  {
    var i := LastIndexOf(s, '.');
    assert forall k :: i < k < |s| ==> Lower(s)[k] != '.';
    if i >= 0 {
      LastIndexOfUnique(Lower(s), '.', i);
    }
  }

  /** The suffix of a lower-cased name is the lower-cased suffix. */
  lemma SuffixLower(name: string)
    ensures Suffix(Lower(name)) == Lower(Suffix(name))
  {
    LastDotLower(name);
    var i := LastIndexOf(name, '.');
    if 0 < i < |name| - 1 {
      LowerDrop(name, i);
    }
  }
}
