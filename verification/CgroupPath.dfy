/** Path strings of cgroups/mod.rs: trimming and splitting at slashes, and joining. */
module CgroupPath {
  /** `trim_matches('/')`. */
  function Trim(s: string): string
    decreases |s|
  {
    if |s| == 0 then s
    else if s[0] == '/' then Trim(s[1..])
    else if s[|s| - 1] == '/' then Trim(s[..|s| - 1])
    else s
  }

  /** `split('/')`: always at least one piece, possibly empty ones. */
  function Split(s: string): (r: seq<string>)
    ensures |r| > 0
  {
    if |s| == 0 then [""]
    else if s[0] == '/' then [""] + Split(s[1..])
    else
      var r := Split(s[1..]);
      [[s[0]] + r[0]] + r[1..]
  }

  /** `filter(|s| !s.is_empty())`. */
  function NonEmpty(parts: seq<string>): seq<string> {
    if |parts| == 0 then []
    else if parts[0] == "" then NonEmpty(parts[1..])
    else [parts[0]] + NonEmpty(parts[1..])
  }

  function Parse(path: string): seq<string> {
    NonEmpty(Split(Trim(path)))
  }

  /** `join("/")`. */
  function Join(parts: seq<string>): string {
    if |parts| == 0 then ""
    else if |parts| == 1 then parts[0]
    else parts[0] + "/" + Join(parts[1..])
  }

  /** What a path component looks like. */
  predicate Component(s: string) {
    s != "" && '/' !in s
  }

  predicate Components(parts: seq<string>) {
    forall i :: 0 <= i < |parts| ==> Component(parts[i])
  }

  lemma {:induction false} SplitConcat(a: string, b: string)
    ensures Split(a + "/" + b) == Split(a) + Split(b)
    decreases |a|
  {
    if |a| == 0 {
      assert a + "/" + b == "/" + b;
      assert ("/" + b)[1..] == b;
    } else {
      var s := a + "/" + b;
      assert s[1..] == a[1..] + "/" + b;
      SplitConcat(a[1..], b);
    }
  }

  lemma {:induction false} NonEmptyConcat(a: seq<string>, b: seq<string>)
    ensures NonEmpty(a + b) == NonEmpty(a) + NonEmpty(b)
  {
    if |a| == 0 {
      assert a + b == b;
    } else {
      assert (a + b)[1..] == a[1..] + b;
      NonEmptyConcat(a[1..], b);
    }
  }

  lemma {:induction false} SplitComponent(s: string)
    requires '/' !in s
    ensures Split(s) == [s]
  {
    if |s| > 0 {
      assert s == [s[0]] + s[1..];
      SplitComponent(s[1..]);
    }
  }

  /** The components are the non-empty pieces between slashes, with or without trimming. */
  lemma {:induction false} ParseIgnoresTrim(s: string)
    ensures Parse(s) == NonEmpty(Split(s))
    decreases |s|
  {
    if |s| > 0 && s[0] == '/' {
      ParseIgnoresTrim(s[1..]);
      assert ([""] + Split(s[1..]))[1..] == Split(s[1..]);
    } else if |s| > 0 && s[|s| - 1] == '/' {
      var t := s[..|s| - 1];
      ParseIgnoresTrim(t);
      assert s == t + "/" + "";
      SplitConcat(t, "");
      NonEmptyConcat(Split(t), [""]);
      assert NonEmpty([""]) == [];
    }
  }

  lemma ParseConcat(a: string, b: string)
    ensures Parse(a + "/" + b) == Parse(a) + Parse(b)
  {
    ParseIgnoresTrim(a);
    ParseIgnoresTrim(b);
    ParseIgnoresTrim(a + "/" + b);
    SplitConcat(a, b);
    NonEmptyConcat(Split(a), Split(b));
  }

  lemma ParseComponent(s: string)
    requires Component(s)
    ensures Parse(s) == [s]
  {
    ParseIgnoresTrim(s);
    SplitComponent(s);
  }

  /** Splitting undoes joining. */
  lemma {:induction false} ParseJoin(parts: seq<string>)
    requires Components(parts)
    ensures Parse(Join(parts)) == parts
  {
    if |parts| == 0 {
      assert Split("") == [""];
    } else if |parts| == 1 {
      ParseComponent(parts[0]);
    } else {
      ParseConcat(parts[0], Join(parts[1..]));
      ParseComponent(parts[0]);
      ParseJoin(parts[1..]);
    }
  }

  /** A printed path starts with the root's own name, a slash. */
  lemma ParseRooted(parts: seq<string>)
    requires Components(parts)
    ensures Parse(Join(["/"] + parts)) == parts
  {
    var all := ["/"] + parts;
    RootIsEmpty();
    if |parts| == 0 {
      assert Join(all) == "/";
    } else {
      assert all[1..] == parts;
      ParseConcat("/", Join(parts));
      ParseJoin(parts);
    }
  }

  lemma RootIsEmpty()
    ensures Parse("/") == []
  {
    assert "/"[1..] == "";
    assert Trim("/") == Trim("") == "";
    assert Split("") == [""];
  }

  lemma {:induction false} SplitPieces(s: string)
    ensures forall i :: 0 <= i < |Split(s)| ==> '/' !in Split(s)[i]
  {
    if |s| > 0 {
      SplitPieces(s[1..]);
      var r := Split(s[1..]);
      if s[0] != '/' {
        assert '/' !in [s[0]] + r[0];
      }
    }
  }

  lemma {:induction false} NonEmptyPieces(parts: seq<string>)
    requires forall i :: 0 <= i < |parts| ==> '/' !in parts[i]
    ensures Components(NonEmpty(parts))
  {
    if |parts| > 0 {
      NonEmptyPieces(parts[1..]);
    }
  }

  lemma ParseComponents(path: string)
    ensures Components(Parse(path))
  {
    SplitPieces(Trim(path));
    NonEmptyPieces(Split(Trim(path)));
  }
}
