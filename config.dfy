/**
 * The `ALLOWED_EXTENSIONS` setting: a comma-separated environment value
 * (default "jpg,jpeg,png,gif") turned into the list of allowed entries.
 */
module Config {
  import opened Wrappers
  import opened Strings

  /** Value used when the environment does not set `ALLOWED_EXTENSIONS`. */
  const DefaultAllowedConfig: string := "jpg,jpeg,png,gif"

  /** No entry of `entries` holds `c`. */
  predicate Free(entries: seq<string>, c: char)
  {
    forall i :: 0 <= i < |entries| ==> c !in entries[i]
  }

  /**
   * `[ext.strip() for ext in segments if ext]`: the emptiness test is made
   * on the segment as split, before stripping.
   */
  function KeepStripped(segments: seq<string>): (r: seq<string>)
    ensures |r| <= |segments|
    ensures forall i :: 0 <= i < |r| ==> IsStripped(r[i])
    ensures forall c :: Free(segments, c) ==> Free(r, c)
  {
    if segments == [] then []
    else
      var rest := KeepStripped(segments[1..]);
      var head := if segments[0] != "" then [Strip(segments[0])] else [];
      assert forall c :: Free(segments, c) ==> Free(segments[1..], c);
      head + rest
  }

  /**
   * The parsed setting: every entry is stripped and holds no comma, and
   * there is at most one entry per comma-separated segment.
   */
  function ParseAllowedExtensions(config: string): (r: seq<string>)
    ensures |r| <= |Split(config, ',')| <= |config| + 1
    ensures forall i :: 0 <= i < |r| ==> ',' !in r[i]
    ensures forall i :: 0 <= i < |r| ==> IsStripped(r[i])
  {
    var segments := Split(config, ',');
    SegmentCount(config, ',');
    assert Free(segments, ',');
    KeepStripped(segments)
  }

  /** Splitting never gives more segments than characters plus one. */
  lemma {:induction false} SegmentCount(s: string, sep: char)
    ensures |Split(s, sep)| <= |s| + 1
  {
    if s != [] {
      SegmentCount(s[1..], sep);
    }
  }

  /** `os.getenv("ALLOWED_EXTENSIONS", default)`: the value if set (even to ""), else the default. */
  function AllowedSetting(env: Option<string>): (setting: string)
    ensures env.None? ==> setting == DefaultAllowedConfig
    ensures env.Some? ==> setting == env.value
  {
    if env.Some? then env.value else DefaultAllowedConfig
  }

  /**
   * `ALLOWED_EXTENSIONS`: the parsed setting, one stripped comma-free
   * entry at most per segment of it.
   */
  function AllowedExtensions(env: Option<string>): (r: seq<string>)
    ensures |r| <= |Split(AllowedSetting(env), ',')|
    ensures forall i :: 0 <= i < |r| ==> ',' !in r[i] && IsStripped(r[i])
  {
    ParseAllowedExtensions(AllowedSetting(env))
  }

  /** Parsing segments joined with commas is keeping and stripping them. */
  lemma ParseJoin(segments: seq<string>)
    requires |segments| >= 1 && Free(segments, ',')
    ensures ParseAllowedExtensions(Join(segments, ",")) == KeepStripped(segments)
  {
    SplitJoin(segments, ',');
  }

  /** Keeping and stripping works segment by segment. */
  lemma {:induction false} KeepAppend(a: seq<string>, b: seq<string>)
    ensures KeepStripped(a + b) == KeepStripped(a) + KeepStripped(b)
  {
    if a != [] {
      KeepAppend(a[1..], b);
      assert (a + b)[1..] == a[1..] + b;
      assert (a + b)[0] == a[0];
    } else {
      assert a + b == b;
    }
  }

  /**
   * An empty segment (from ",," or a trailing ",") is dropped, a segment
   * of whitespace only survives as "", and any other segment survives
   * stripped.
   */
  lemma KeepOne(segment: string)
    ensures segment == "" ==> KeepStripped([segment]) == []
    ensures segment != "" && (forall k :: 0 <= k < |segment| ==> IsSpace(segment[k])) ==>
              KeepStripped([segment]) == [""]
    ensures segment != "" ==> KeepStripped([segment]) == [Strip(segment)]
  {
    assert [segment][1..] == [];
  }

  /** A non-empty text with no whitespace at either end. */
  predicate Clean(s: string)
  {
    s != "" && IsStripped(s)
  }

  /** Segments that are non-empty and already stripped are kept as they are. */
  lemma {:induction false} KeepClean(segments: seq<string>)
    requires forall i :: 0 <= i < |segments| ==> Clean(segments[i])
    ensures KeepStripped(segments) == segments
  {
    if segments != [] {
      KeepClean(segments[1..]);
      assert segments == [segments[0]] + segments[1..];
    }
  }

  lemma DefaultJoined()
    ensures Join(["jpg", "jpeg", "png", "gif"], ",") == DefaultAllowedConfig
  {
    var segments := ["jpg", "jpeg", "png", "gif"];
    assert Join(segments[3..], ",") == "gif";
    assert Join(segments[2..], ",") == "png,gif";
    assert Join(segments[1..], ",") == "jpeg,png,gif";
  }

  /** The default setting parses to exactly its four entries, in order. */
  lemma DefaultAllowedExtensions()
    ensures AllowedExtensions(None) == ["jpg", "jpeg", "png", "gif"]
  {
    DefaultSplit();
    DefaultKept();
  }

  lemma DefaultKept()
    ensures KeepStripped(["jpg", "jpeg", "png", "gif"]) == ["jpg", "jpeg", "png", "gif"]
  {
    var segments := ["jpg", "jpeg", "png", "gif"];
    assert Clean(segments[0]) && Clean(segments[1]) && Clean(segments[2]) && Clean(segments[3]);
    KeepClean(segments);
  }

  lemma DefaultSplit()
    ensures ParseAllowedExtensions(DefaultAllowedConfig) == KeepStripped(["jpg", "jpeg", "png", "gif"])
  {
    DefaultJoined();
    assert Free(["jpg", "jpeg", "png", "gif"], ',');
    ParseJoin(["jpg", "jpeg", "png", "gif"]);
  }

  /**
   * Wherever it stands, an empty segment (from ",," or a trailing ",")
   * adds no entry.
   */
  lemma EmptySegmentDropped(before: seq<string>, after: seq<string>)
    ensures KeepStripped(before + [""] + after) == KeepStripped(before) + KeepStripped(after)
  {
    KeepAppend(before + [""], after);
    KeepAppend(before, [""]);
    KeepOne("");
  }

  /** Wherever it stands, a segment of whitespace only adds the entry "". */
  lemma BlankSegmentKept(before: seq<string>, blank: string, after: seq<string>)
    requires blank != "" && forall k :: 0 <= k < |blank| ==> IsSpace(blank[k])
    ensures KeepStripped(before + [blank] + after) == KeepStripped(before) + [""] + KeepStripped(after)
  {
    KeepAppend(before + [blank], after);
    KeepAppend(before, [blank]);
    KeepOne(blank);
  }

  /** A set but empty value gives no entries at all. */
  lemma EmptySettingAllowsNothing()
    ensures AllowedExtensions(Some("")) == []
  {
    assert Split("", ',') == [""];
  }
}
