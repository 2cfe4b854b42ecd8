/** A stand-in for the `path-to-regexp` matcher the response and URL waiters
    compile their patterns with: a pattern is split on `/`, a segment
    `:name` captures one non-empty segment, every other segment must appear
    as written, and one trailing `/` on the matched text is allowed, where
    a trailing `/` of the pattern itself is dropped. */
module PathPattern {
  import opened Base

  datatype Segment = Literal(text: string) | Param(name: string)

  /** The text split on every `/`; there is always at least one part. */
  function SplitPath(s: string): (parts: seq<string>)
    ensures |parts| >= 1
    decreases |s|
  {
    if s == [] then [""]
    else if s[0] == '/' then [""] + SplitPath(s[1..])
    else
      var rest := SplitPath(s[1..]);
      [[s[0]] + rest[0]] + rest[1..]
  }

  predicate IsWordChar(c: char)
  {
    ('a' <= c <= 'z') || ('A' <= c <= 'Z') || ('0' <= c <= '9') || c == '_'
  }

  predicate IsParamSegment(seg: string)
  {
    |seg| >= 2 && seg[0] == ':' && forall i :: 1 <= i < |seg| ==> IsWordChar(seg[i])
  }

  function ParseSegment(seg: string): Segment
  {
    if IsParamSegment(seg) then Param(seg[1..]) else Literal(seg)
  }

  /** `pathToRegexp(url, keys)`. The default is not strict: a trailing `/`
      of the pattern itself is dropped, and the trailing `/` that `Exec`
      allows on the text stands in for it. */
  function Compile(url: string): (pat: seq<Segment>)
    ensures |pat| >= 1
    ensures |pat| == |SplitPath(url)| - (if EndsWithSlash(url) then 1 else 0)
    ensures forall i :: 0 <= i < |pat| ==> pat[i] == ParseSegment(SplitPath(url)[i])
  {
    var parts := SplitPath(url);
    if EndsWithSlash(url) then
      SplitSnocSlash(url[..|url| - 1]);
      assert url[..|url| - 1] + "/" == url;
      seq(|parts| - 1, i requires 0 <= i < |parts| - 1 => ParseSegment(parts[i]))
    else
      seq(|parts|, i requires 0 <= i < |parts| => ParseSegment(parts[i]))
  }

  /** A `/` at the end of a text adds one empty last part. */
  lemma {:induction false} SplitSnocSlash(x: string)
    ensures SplitPath(x + "/") == SplitPath(x) + [""]
    decreases |x|
  {
    if x == [] {
      assert ("/")[1..] == "";
    } else {
      assert (x + "/")[0] == x[0];
      assert (x + "/")[1..] == x[1..] + "/";
      SplitSnocSlash(x[1..]);
    }
  }

  /** The pattern's own trailing `/` does not change what it compiles to. */
  lemma PatternSlashIgnored(x: string)
    requires !EndsWithSlash(x)
    ensures Compile(x + "/") == Compile(x)
  {
    SplitSnocSlash(x);
    assert (x + "/")[..|x + "/"| - 1] == x;
    assert EndsWithSlash(x + "/");
  }

  /** The `keys` that `pathToRegexp` fills: the parameter names in order. */
  function Keys(pat: seq<Segment>): seq<string>
    decreases |pat|
  {
    if pat == [] then []
    else Keys(pat[..|pat| - 1]) + (if pat[|pat| - 1].Param? then [pat[|pat| - 1].name] else [])
  }

  /** The captures of matching the parts of a path against the segments. */
  function MatchParts(pat: seq<Segment>, parts: seq<string>): Option<seq<string>>
    decreases |pat|
  {
    if |pat| != |parts| then None
    else if pat == [] then Some([])
    else
      match MatchParts(pat[..|pat| - 1], parts[..|parts| - 1])
      case None => None
      case Some(caps) =>
        var seg, part := pat[|pat| - 1], parts[|parts| - 1];
        if seg.Literal? then (if part == seg.text then Some(caps) else None)
        else if part == "" then None
        else Some(caps + [part])
  }

  predicate EndsWithSlash(s: string)
  {
    |s| > 0 && s[|s| - 1] == '/'
  }

  /** `re.exec(s)`: the whole text followed by one entry per key, or None
      when the text does not match. */
  function Exec(pat: seq<Segment>, s: string): Option<seq<Option<string>>>
  {
    var m := MatchParts(pat, SplitPath(s));
    var m' := if m.None? && EndsWithSlash(s) then MatchParts(pat, SplitPath(s[..|s| - 1])) else m;
    match m'
    case None => None
    case Some(caps) => Some([Some(s)] + seq(|caps|, i requires 0 <= i < |caps| => Some(caps[i])))
  }

  /** The captures line up with the keys, and each is a non-empty segment. */
  lemma {:induction false} MatchPartsCaptures(pat: seq<Segment>, parts: seq<string>)
    requires MatchParts(pat, parts).Some?
    ensures var caps := MatchParts(pat, parts).value;
      |caps| == |Keys(pat)|
      && forall i :: 0 <= i < |caps| ==> caps[i] != "" && caps[i] in parts
    decreases |pat|
  {
    if pat != [] {
      MatchPartsCaptures(pat[..|pat| - 1], parts[..|parts| - 1]);
    }
  }

  /** A match yields the text itself and then one non-empty capture per key,
      never an absent group. */
  lemma ExecShape(pat: seq<Segment>, s: string)
    requires Exec(pat, s).Some?
    ensures var r := Exec(pat, s).value;
      |r| == |Keys(pat)| + 1 && r[0] == Some(s)
      && forall i :: 1 <= i < |r| ==> r[i].Some? && r[i].value != ""
  {
    var m := MatchParts(pat, SplitPath(s));
    if m.Some? {
      MatchPartsCaptures(pat, SplitPath(s));
    } else {
      MatchPartsCaptures(pat, SplitPath(s[..|s| - 1]));
    }
  }

  lemma {:induction false} SplitWithoutSlash(a: string)
    requires '/' !in a
    ensures SplitPath(a) == [a]
    decreases |a|
  {
    if a != [] {
      assert a[0] in a;
      SplitWithoutSlash(a[1..]);
      assert [a[0]] + a[1..] == a;
    }
  }

  lemma {:induction false} SplitAtSlash(a: string, b: string)
    requires '/' !in a
    ensures SplitPath(a + "/" + b) == [a] + SplitPath(b)
    decreases |a|
  {
    if a == [] {
      assert a + "/" + b == "/" + b;
      assert ("/" + b)[1..] == b;
    } else {
      assert a[0] in a;
      assert (a + "/" + b)[0] == a[0];
      assert (a + "/" + b)[1..] == a[1..] + "/" + b;
      SplitAtSlash(a[1..], b);
      assert [a[0]] + a[1..] == a;
    }
  }

  /** Splitting a path joined with `/` gives back its parts. */
  lemma {:induction false} SplitJoin(parts: seq<string>)
    requires |parts| >= 1
    requires forall i :: 0 <= i < |parts| ==> '/' !in parts[i]
    ensures SplitPath(Join(parts, "/")) == parts
    decreases |parts|
  {
    if |parts| == 1 {
      SplitWithoutSlash(parts[0]);
    } else {
      SplitJoin(parts[1..]);
      SplitAtSlash(parts[0], Join(parts[1..], "/"));
      assert parts == [parts[0]] + parts[1..];
    }
  }

  /** The path a pattern describes with `values` put in for its parameters,
      one value per parameter from the left. */
  function Fill(pat: seq<Segment>, values: seq<string>): seq<string>
    requires |values| == |Keys(pat)|
    decreases |pat|
  {
    if pat == [] then []
    else
      var last := pat[|pat| - 1];
      var n := if last.Param? then 1 else 0;
      Fill(pat[..|pat| - 1], values[..|values| - n]) + [if last.Param? then values[|values| - 1] else last.text]
  }

  /** Filling a pattern in and matching the result captures exactly the
      values filled in. */
  lemma {:induction false} MatchFill(pat: seq<Segment>, values: seq<string>)
    requires |values| == |Keys(pat)|
    requires forall i :: 0 <= i < |values| ==> values[i] != ""
    ensures |Fill(pat, values)| == |pat| && MatchParts(pat, Fill(pat, values)) == Some(values)
    decreases |pat|
  {
    if pat != [] {
      var last := pat[|pat| - 1];
      var n := if last.Param? then 1 else 0;
      var front := values[..|values| - n];
      MatchFill(pat[..|pat| - 1], front);
      var f := Fill(pat, values);
      assert f[..|f| - 1] == Fill(pat[..|pat| - 1], front);
      if last.Param? {
        assert front + [values[|values| - 1]] == values;
      } else {
        assert front == values;
      }
    }
  }

  /** A URL with its parameters filled in by `/`-free values matches the
      pattern, and exec hands back those values in order. */
  lemma ExecFilled(pat: seq<Segment>, values: seq<string>)
    requires |pat| >= 1 && |values| == |Keys(pat)|
    requires forall i :: 0 <= i < |values| ==> values[i] != "" && '/' !in values[i]
    requires forall i :: 0 <= i < |pat| ==> pat[i].Literal? ==> '/' !in pat[i].text
    ensures var s := Join(Fill(pat, values), "/");
      Exec(pat, s) == Some([Some(s)] + seq(|values|, i requires 0 <= i < |values| => Some(values[i])))
  {
    MatchFill(pat, values);
    var f := Fill(pat, values);
    FillParts(pat, values);
    SplitJoin(f);
  }

  lemma {:induction false} FillParts(pat: seq<Segment>, values: seq<string>)
    requires |values| == |Keys(pat)|
    requires forall i :: 0 <= i < |values| ==> '/' !in values[i]
    requires forall i :: 0 <= i < |pat| ==> pat[i].Literal? ==> '/' !in pat[i].text
    ensures forall i :: 0 <= i < |Fill(pat, values)| ==> '/' !in Fill(pat, values)[i]
    decreases |pat|
  {
    if pat != [] {
      var n := if pat[|pat| - 1].Param? then 1 else 0;
      FillParts(pat[..|pat| - 1], values[..|values| - n]);
    }
  }

  /** The pattern `/a/` matches `/a` and `/a/`, and not `/a//`. */
  lemma TrailingSlashPattern()
    ensures Compile("/a/") == [Literal(""), Literal("a")]
    ensures Exec(Compile("/a/"), "/a") == Some([Some("/a")])
    ensures Exec(Compile("/a/"), "/a/") == Some([Some("/a/")])
    ensures Exec(Compile("/a/"), "/a//") == None
  {
    var pat := [Literal(""), Literal("a")];
    PatternSlashIgnored("/a");
    SplitAtSlash("", "a");
    SplitWithoutSlash("a");
    assert "" + "/" + "a" == "/a";
    assert "/a" + "/" == "/a/" && "/a/" + "/" == "/a//";
    SplitSnocSlash("/a");
    SplitSnocSlash("/a/");
    assert SplitPath("/a") == ["", "a"];
    assert SplitPath("/a/") == ["", "a", ""];
    assert MatchParts(pat[..1], [""]) == Some([]);
    assert MatchParts(pat, ["", "a"]) == Some([]);
    assert MatchParts(pat, ["", "a", ""]) == None;
    assert !EndsWithSlash("/a") && EndsWithSlash("/a/") && EndsWithSlash("/a//");
    assert "/a/"[..2] == "/a" && "/a//"[..3] == "/a/";
    ExecWithoutKeys(pat, "/a");
    ExecWithoutKeys(pat, "/a/");
  }

  /** Against a pattern without parameters, a matching text yields only
      itself. */
  lemma ExecWithoutKeys(pat: seq<Segment>, s: string)
    requires MatchParts(pat, SplitPath(s)) == Some([])
      || (EndsWithSlash(s) && MatchParts(pat, SplitPath(s[..|s| - 1])) == Some([]))
    ensures Exec(pat, s) == Some([Some(s)])
  {
    var m := MatchParts(pat, SplitPath(s));
    var m' := if m.None? && EndsWithSlash(s) then MatchParts(pat, SplitPath(s[..|s| - 1])) else m;
    assert m' == Some([]) by {
      if m.Some? {
        MatchPartsCaptures(pat, SplitPath(s));
        if EndsWithSlash(s) && MatchParts(pat, SplitPath(s[..|s| - 1])) == Some([]) {
          MatchPartsCaptures(pat, SplitPath(s[..|s| - 1]));
        }
      }
    }
    var caps := m'.value;
    assert [Some(s)] + seq(|caps|, i requires 0 <= i < |caps| => Some(caps[i])) == [Some(s)];
  }

  /** A pattern without parameters matches only its own text, with or
      without one trailing `/`. */
  lemma {:induction false} LiteralMatch(pat: seq<Segment>, parts: seq<string>)
    requires forall i :: 0 <= i < |pat| ==> pat[i].Literal?
    ensures MatchParts(pat, parts).Some?
      <==> |pat| == |parts| && forall i :: 0 <= i < |pat| ==> parts[i] == pat[i].text
    decreases |pat|
  {
    if pat != [] && |pat| == |parts| {
      LiteralMatch(pat[..|pat| - 1], parts[..|parts| - 1]);
    }
  }
}
