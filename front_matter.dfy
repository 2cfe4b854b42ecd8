/** The front-matter codec of packages/medic/src/format.js: a Markdown file
    optionally opens with a YAML header between two `---` lines. `Parse`
    (toPost) splits the text into header metadata and body, `ToText` (toText)
    writes them back. The YAML library's `load` and `safeDump` are not part of
    this model: they are passed in as functions. */
module FrontMatter {
  import opened Base

  /** The JavaScript values `yaml.load` can produce. Numbers are modelled as
      integers; `Date` is a timestamp object, an object that is not plain. */
  datatype Yaml =
    | Null
    | Undefined
    | Bool(b: bool)
    | Number(n: int)
    | Str(s: string)
    | Date(iso: string)
    | List(items: seq<Yaml>)
    | Mapping(fields: map<string, Yaml>)

  datatype Post = Post(meta: Yaml, body: string)

  /** The `{}` every fallback path returns as meta. */
  const EmptyMeta: Yaml := Mapping(map[])

  const Fence: string := "---"

  /** The keys whose presence makes a header count. */
  const MetaKeys: seq<string> := ["id", "tags"]

  /** A header counts when it is a plain object (not null, not an array, not a
      date) with an `id` or a `tags` key, whatever that key's value is. */
  predicate IsValidMeta(meta: Yaml)
  {
    meta.Mapping? && ("id" in meta.fields || "tags" in meta.fields)
  }

  /** isValidMeta: the early-return loop over the recognised keys. */
  method CheckMeta(meta: Yaml) returns (valid: bool)
    ensures valid == IsValidMeta(meta)
  {
    if !meta.Mapping? {
      return false;
    }
    var keys := meta.fields.Keys;
    var i := 0;
    while i < |MetaKeys|
      invariant 0 <= i <= |MetaKeys|
      invariant forall j :: 0 <= j < i ==> MetaKeys[j] !in keys
    {
      if MetaKeys[i] in keys {
        assert MetaKeys[i] == "id" || MetaKeys[i] == "tags";
        return true;
      }
      i := i + 1;
    }
    assert MetaKeys[0] == "id" && MetaKeys[1] == "tags";
    return false;
  }

  /** A `tags` key counts whatever its value, null included; an empty
      object, null, an array and a date do not. */
  lemma HeaderKinds(d: string)
    ensures IsValidMeta(Mapping(map["tags" := Null])) && IsValidMeta(Mapping(map["id" := Str(d)]))
    ensures !IsValidMeta(EmptyMeta) && !IsValidMeta(Null) && !IsValidMeta(List([])) && !IsValidMeta(Date(d))
    ensures !IsValidMeta(Mapping(map["title" := Str(d)]))
  {
  }

  /** `text.split(/\r?\n/)`: the text is cut at every `\n`, and a `\r` directly
      before that `\n` goes with it. */
  function SplitLines(s: string): (lines: seq<string>)
    ensures |lines| >= 1
    decreases |s|
  {
    if |s| == 0 then [""]
    else if s[0] == '\n' then [""] + SplitLines(s[1..])
    else if |s| >= 2 && s[0] == '\r' && s[1] == '\n' then [""] + SplitLines(s[2..])
    else
      var rest := SplitLines(s[1..]);
      [[s[0]] + rest[0]] + rest[1..]
  }

  /** A line break between two texts separates their lines, provided the
      first text holds no `\r` that could pair with the break. */
  lemma {:induction false} SplitAppend(a: string, brk: string, b: string)
    requires brk == "\n" || brk == "\r\n"
    requires '\r' !in a
    ensures SplitLines(a + brk + b) == SplitLines(a) + SplitLines(b)
    decreases |a|
  {
    if |a| == 0 {
      SplitBreak(brk, b);
      assert a + brk + b == brk + b;
    } else {
      var s := a + brk + b;
      assert a[0] in a;
      assert s == [a[0]] + (a[1..] + brk + b);
      assert a == [a[0]] + a[1..];
      SplitAppend(a[1..], brk, b);
      SplitCons(a[0], a[1..] + brk + b);
      SplitCons(a[0], a[1..]);
    }
  }

  /** A line break at the front starts an empty first line. */
  lemma SplitBreak(brk: string, b: string)
    requires brk == "\n" || brk == "\r\n"
    ensures SplitLines(brk + b) == [""] + SplitLines(b)
  {
    var s := brk + b;
    if brk == "\n" {
      assert s[0] == '\n' && s[1..] == b;
    } else {
      assert s[0] == '\r' && s[1] == '\n' && s[2..] == b;
    }
  }

  /** How one character other than `\r` in front of a text splits. */
  lemma SplitCons(c: char, t: string)
    requires c != '\r'
    ensures c == '\n' ==> SplitLines([c] + t) == [""] + SplitLines(t)
    ensures c != '\n' ==> SplitLines([c] + t) == [[c] + SplitLines(t)[0]] + SplitLines(t)[1..]
  {
    var s := [c] + t;
    assert s[0] == c && s[1..] == t;
  }

  /** Joining the lines of a text without `\r` gives the text back. */
  lemma {:induction false} JoinSplit(s: string)
    requires '\r' !in s
    ensures Join(SplitLines(s), "\n") == s
    decreases |s|
  {
    if |s| > 0 {
      JoinSplit(s[1..]);
      if s[0] != '\n' {
        JoinConsHead([s[0]], SplitLines(s[1..]), "\n");
      }
    }
  }

  /** The first line is a prefix of the text, followed by the end of the text
      or by one of the two line breaks. */
  lemma {:induction false} FirstLineShape(s: string)
    ensures var f := SplitLines(s)[0];
      s == f || (|s| > |f| && s[..|f| + 1] == f + "\n") || (|s| > |f| + 1 && s[..|f| + 2] == f + "\r\n")
    decreases |s|
  {
    if |s| > 0 && s[0] != '\n' && !(|s| >= 2 && s[0] == '\r' && s[1] == '\n') {
      var t := s[1..];
      FirstLineShape(t);
      var f' := SplitLines(t)[0];
      var f := [s[0]] + f';
      assert SplitLines(s)[0] == f;
      if t == f' {
        assert s == f;
      } else if |t| > |f'| && t[..|f'| + 1] == f' + "\n" {
        assert s[..|f| + 1] == [s[0]] + t[..|f'| + 1];
      } else {
        assert s[..|f| + 2] == [s[0]] + t[..|f'| + 2];
      }
    }
  }

  /** The text opens with a line that is exactly `---`. */
  predicate OpensWithFence(text: string)
  {
    text == Fence || (|text| >= 4 && text[..4] == "---\n") || (|text| >= 5 && text[..5] == "---\r\n")
  }

  lemma FirstLineIsFence(text: string)
    ensures SplitLines(text)[0] == Fence <==> OpensWithFence(text)
  {
    if SplitLines(text)[0] == Fence {
      FirstLineShape(text);
    }
    if OpensWithFence(text) {
      OpeningFenceIsFirstLine(text);
    }
  }

  lemma OpeningFenceIsFirstLine(text: string)
    requires OpensWithFence(text)
    ensures SplitLines(text)[0] == Fence
  {
    SplitFence();
    if text != Fence {
      var brk := if text[3] == '\n' then "\n" else "\r\n";
      var rest := text[3 + |brk|..];
      assert text == Fence + brk + rest;
      SplitAppend(Fence, brk, rest);
    }
  }

  /** The first `---` line at or after index `from`, if any. */
  function FirstFence(lines: seq<string>, from: nat): (r: Option<nat>)
    ensures r.Some? ==> from <= r.value < |lines| && lines[r.value] == Fence
    ensures r.Some? ==> forall k :: from <= k < r.value ==> lines[k] != Fence
    ensures r.None? ==> forall k :: from <= k < |lines| ==> lines[k] != Fence
    decreases |lines| - from
  {
    if from >= |lines| then None
    else if lines[from] == Fence then Some(from)
    else FirstFence(lines, from + 1)
  }

  /** The lines with their leading empty lines removed. */
  function DropLeadingEmpty(lines: seq<string>): seq<string>
    decreases |lines|
  {
    if |lines| > 0 && lines[0] == "" then DropLeadingEmpty(lines[1..]) else lines
  }

  /** What is dropped is a run of empty lines at the front; what is kept is
      the rest, unchanged, and starts with a non-empty line when not empty. */
  lemma {:induction false} DropLeadingEmptyKeepsRest(lines: seq<string>)
    ensures var rest := DropLeadingEmpty(lines);
      |rest| <= |lines| && rest == lines[|lines| - |rest|..]
      && (forall j :: 0 <= j < |lines| - |rest| ==> lines[j] == "")
      && (rest == [] || rest[0] != "")
    decreases |lines|
  {
    if |lines| > 0 && lines[0] == "" {
      DropLeadingEmptyKeepsRest(lines[1..]);
    }
  }

  /** Extending the lines by one keeps what was dropped dropped. */
  lemma {:induction false} DropLeadingEmptySnoc(lines: seq<string>, line: string)
    ensures DropLeadingEmpty(lines + [line])
      == if DropLeadingEmpty(lines) == [] then (if line == "" then [] else [line])
         else DropLeadingEmpty(lines) + [line]
    decreases |lines|
  {
    if |lines| > 0 && lines[0] == "" {
      assert (lines + [line])[1..] == lines[1..] + [line];
      DropLeadingEmptySnoc(lines[1..], line);
    }
  }

  /** toPost, as a specification. A missing opening fence, a missing closing
      fence and a header that does not count all give the text back verbatim
      under an empty meta; a YAML syntax error thrown by `load` propagates. */
  function Parse(text: string, load: string -> Result<Yaml>): Result<Post>
  {
    var lines := SplitLines(text);
    if lines[0] != Fence then Ok(Post(EmptyMeta, text))
    else
      match FirstFence(lines, 1)
      case None => Ok(Post(EmptyMeta, text))
      case Some(close) =>
        match load(Join(lines[1..close], "\n"))
        case Err(e) => Err(e)
        case Ok(meta) =>
          if !IsValidMeta(meta) then Ok(Post(EmptyMeta, text))
          else Ok(Post(meta, Join(DropLeadingEmpty(lines[close + 1..]), "\n")))
  }

  /** toPost: one loop collects the header lines up to the closing fence,
      a second collects the body lines once the leading empty ones are past. */
  method ToPost(text: string, load: string -> Result<Yaml>) returns (r: Result<Post>)
    ensures r == Parse(text, load)
  {
    var lines := SplitLines(text);
    if lines[0] != Fence {
      return Ok(Post(EmptyMeta, text));
    }
    var found, i, headerLines := CollectHeader(lines);
    if !found {
      return Ok(Post(EmptyMeta, text));
    }
    var loaded := load(Join(headerLines, "\n"));
    if loaded.Err? {
      return Err(loaded.error);
    }
    var meta := loaded.value;
    var valid := CheckMeta(meta);
    if !valid {
      return Ok(Post(EmptyMeta, text));
    }
    var restLines := CollectBody(lines, i + 1);
    ParseWithHeader(text, load, i, meta);
    return Ok(Post(meta, Join(restLines, "\n")));
  }

  /** The first loop of toPost: the lines after the opening fence, up to the
      closing fence if there is one. */
  method CollectHeader(lines: seq<string>) returns (found: bool, i: nat, headerLines: seq<string>)
    ensures found <==> FirstFence(lines, 1).Some?
    ensures found ==> FirstFence(lines, 1) == Some(i) && headerLines == lines[1..i]
  {
    headerLines := [];
    found := false;
    i := 1;
    while i < |lines|
      invariant 1 <= i
      invariant i <= |lines| ==> headerLines == lines[1..i]
      invariant FirstFence(lines, 1) == FirstFence(lines, i)
    {
      if lines[i] == Fence {
        found := true;
        break;
      }
      headerLines := headerLines + [lines[i]];
      i := i + 1;
    }
  }

  /** The second loop of toPost: the lines from `from` on, leading empty
      lines skipped. */
  method CollectBody(lines: seq<string>, from: nat) returns (restLines: seq<string>)
    requires from <= |lines|
    ensures restLines == DropLeadingEmpty(lines[from..])
  {
    restLines := [];
    var checkEmpty := true;
    for j := from to |lines|
      invariant restLines == DropLeadingEmpty(lines[from..j])
      invariant checkEmpty <==> restLines == []
    {
      DropLeadingEmptySnoc(lines[from..j], lines[j]);
      assert lines[from..j + 1] == lines[from..j] + [lines[j]];
      if checkEmpty {
        if lines[j] == "" {
          continue;
        }
        checkEmpty := false;
      }
      restLines := restLines + [lines[j]];
    }
    assert lines[from..|lines|] == lines[from..];
  }

  /** toText: a valid meta is written as a header followed by one empty line;
      otherwise the body alone is written. */
  function ToText(p: Post, dump: Yaml -> string): (r: string)
    ensures !IsValidMeta(p.meta) ==> r == p.body
    ensures IsValidMeta(p.meta) ==>
      |r| == |dump(p.meta)| + |p.body| + 10
      && r[..4] == Fence + "\n" && r[4..4 + |dump(p.meta)|] == dump(p.meta)
      && r[|r| - |p.body| - 6..] == Fence + "\n\n" + p.body + "\n"
  {
    if !IsValidMeta(p.meta) then p.body
    else Fence + "\n" + dump(p.meta) + Fence + "\n\n" + p.body + "\n"
  }

  /** What `safeDump` is relied on to produce: text ending in a newline, with
      no `\r` and no line that reads `---`. */
  predicate DumpFits(h: string)
  {
    |h| > 0 && h[|h| - 1] == '\n' && '\r' !in h && Fence !in SplitLines(h[..|h| - 1])
  }

  /** The line structure of a written post: the fence, the header lines, the
      fence, the empty separator line, the body lines and the empty line after
      the trailing newline. */
  lemma ToTextLines(p: Post, dump: Yaml -> string)
    requires IsValidMeta(p.meta) && DumpFits(dump(p.meta)) && '\r' !in p.body
    ensures var h := dump(p.meta);
      SplitLines(ToText(p, dump))
        == [Fence] + SplitLines(h[..|h| - 1]) + [Fence, ""] + SplitLines(p.body) + [""]
  {
    var h := dump(p.meta);
    var header := h[..|h| - 1];
    assert h == header + "\n";
    assert ToText(p, dump) == Fence + "\n" + (header + "\n" + (Fence + "\n" + ("\n" + (p.body + "\n"))));
    SplitFence();
    WrittenShape(Fence, header, p.body);
  }

  /** The lines of a fence, a header, the fence again, an empty line and a
      body ending in a newline. */
  lemma WrittenShape(f: string, header: string, body: string)
    requires '\r' !in f && '\r' !in header && '\r' !in body
    ensures SplitLines(f + "\n" + (header + "\n" + (f + "\n" + ("\n" + (body + "\n")))))
      == SplitLines(f) + SplitLines(header) + SplitLines(f) + [""] + SplitLines(body) + [""]
  {
    SeparatedBody(body);
    ThreeLines(f, header, "\n" + (body + "\n"));
    Regroup(SplitLines(f), SplitLines(header), SplitLines(f), [""], SplitLines(body), [""]);
  }

  lemma Regroup(a: seq<string>, b: seq<string>, c: seq<string>, d: seq<string>, e: seq<string>, g: seq<string>)
    ensures a + (b + (c + (d + (e + g)))) == a + b + c + d + e + g
  {
    assert d + (e + g) == d + e + g;
    assert c + (d + e + g) == c + d + e + g;
    assert b + (c + d + e + g) == b + c + d + e + g;
  }

  lemma ThreeLines(f: string, header: string, t: string)
    requires '\r' !in f && '\r' !in header
    ensures SplitLines(f + "\n" + (header + "\n" + (f + "\n" + t)))
      == SplitLines(f) + (SplitLines(header) + (SplitLines(f) + SplitLines(t)))
  {
    var t3 := f + "\n" + t;
    SplitAppend(f, "\n", t);
    SplitAppend(header, "\n", t3);
    SplitAppend(f, "\n", header + "\n" + t3);
  }

  /** The empty separator line, the body and the empty line after its
      trailing newline. */
  lemma SeparatedBody(body: string)
    requires '\r' !in body
    ensures SplitLines("\n" + (body + "\n")) == [""] + (SplitLines(body) + [""])
  {
    var t1 := body + "\n";
    assert SplitLines(t1) == SplitLines(body) + [""] by {
      assert t1 == body + "\n" + "";
      SplitAppend(body, "\n", "");
    }
    SplitBreak("\n", t1);
  }

  /** How toPost reads a text whose header counts. */
  lemma ParseWithHeader(text: string, load: string -> Result<Yaml>, close: nat, meta: Yaml)
    requires SplitLines(text)[0] == Fence && FirstFence(SplitLines(text), 1) == Some(close)
    requires load(Join(SplitLines(text)[1..close], "\n")) == Ok(meta) && IsValidMeta(meta)
    ensures Parse(text, load) == Ok(Post(meta, Join(DropLeadingEmpty(SplitLines(text)[close + 1..]), "\n")))
  {
  }

  /** A header that loads but is not a mapping with `id` or `tags` leaves
      the text whole, fences included, with the empty meta. */
  lemma InvalidHeaderIsVerbatim(text: string, load: string -> Result<Yaml>, close: nat, meta: Yaml)
    requires SplitLines(text)[0] == Fence && FirstFence(SplitLines(text), 1) == Some(close)
    requires load(Join(SplitLines(text)[1..close], "\n")) == Ok(meta) && !IsValidMeta(meta)
    ensures Parse(text, load) == Ok(Post(EmptyMeta, text))
  {
  }

  /** In the line structure `toText` writes, the header ends at the second
      fence and the body starts after the empty separator line. */
  lemma WrittenLines(hl: seq<string>, bl: seq<string>)
    requires Fence !in hl && |bl| > 0 && bl[0] != ""
    ensures var lines := [Fence] + hl + [Fence, ""] + bl + [""];
      FirstFence(lines, 1) == Some(1 + |hl|)
      && lines[1..1 + |hl|] == hl
      && DropLeadingEmpty(lines[2 + |hl|..]) == bl + [""]
  {
    var lines := [Fence] + hl + [Fence, ""] + bl + [""];
    var close := 1 + |hl|;
    assert forall k :: 1 <= k < close ==> lines[k] == hl[k - 1];
    assert lines[close] == Fence;
    assert lines[1..close] == hl;
    assert lines[close + 1..] == [""] + (bl + [""]);
    assert (bl + [""])[0] == bl[0];
  }

  /** With a valid meta that `load` reads back from its dump, writing a post
      and parsing it again recovers the meta, and the body comes back with
      the one newline `toText` appended. The body must not start with an empty
      line (those are skipped on parsing) and must hold no `\r`. */
  lemma RoundTrip(p: Post, load: string -> Result<Yaml>, dump: Yaml -> string)
    requires IsValidMeta(p.meta) && DumpFits(dump(p.meta))
    requires load(dump(p.meta)[..|dump(p.meta)| - 1]) == Ok(p.meta)
    requires p.body != "" && p.body[0] != '\n' && '\r' !in p.body
    ensures Parse(ToText(p, dump), load) == Ok(Post(p.meta, p.body + "\n"))
  {
    var h := dump(p.meta);
    var header := h[..|h| - 1];
    var hl := SplitLines(header);
    var bl := SplitLines(p.body);
    var text := ToText(p, dump);
    ToTextLines(p, dump);
    assert bl[0] != "" by {
      FirstLineShape(p.body);
    }
    WrittenLines(hl, bl);
    var lines := SplitLines(text);
    var close := 1 + |hl|;
    assert lines[1..close] == hl;
    JoinSplit(header);
    assert Join(lines[1..close], "\n") == header;
    ParseWithHeader(text, load, close, p.meta);
    assert DropLeadingEmpty(lines[close + 1..]) == bl + [""];
    JoinSnoc(bl, "", "\n");
    JoinSplit(p.body);
    assert Join(bl + [""], "\n") == p.body + "\n";
  }

  /** Without a valid meta the written text is the body alone, and it parses
      back to itself as long as it does not open with a fence. */
  lemma RoundTripNoHeader(p: Post, load: string -> Result<Yaml>, dump: Yaml -> string)
    requires !IsValidMeta(p.meta) && !OpensWithFence(p.body)
    ensures Parse(ToText(p, dump), load) == Ok(Post(EmptyMeta, p.body))
  {
    FirstLineIsFence(p.body);
  }

  /** A text that does not open with a `---` line is all body. */
  lemma NoOpeningFence(text: string, load: string -> Result<Yaml>)
    requires !OpensWithFence(text)
    ensures Parse(text, load) == Ok(Post(EmptyMeta, text))
  {
    FirstLineIsFence(text);
  }

  /** An opening fence that is never closed leaves the text all body. */
  lemma Unclosed(text: string, load: string -> Result<Yaml>)
    requires OpensWithFence(text)
    requires forall k :: 1 <= k < |SplitLines(text)| ==> SplitLines(text)[k] != Fence
    ensures Parse(text, load) == Ok(Post(EmptyMeta, text))
  {
    FirstLineIsFence(text);
  }

  /** Every successful parse either found a header that counts or returns the
      original text, byte for byte, under an empty meta. A failure is always
      the YAML library's own error on the header text. */
  lemma ValidOrVerbatim(text: string, load: string -> Result<Yaml>)
    ensures Parse(text, load).Ok? ==>
      IsValidMeta(Parse(text, load).value.meta) || Parse(text, load).value == Post(EmptyMeta, text)
    ensures Parse(text, load).Err? ==>
      exists k :: 1 <= k <= |SplitLines(text)| && load(Join(SplitLines(text)[1..k], "\n")) == Err(Parse(text, load).error)
  {
    var lines := SplitLines(text);
    if lines[0] == Fence && FirstFence(lines, 1).Some? {
      var close := FirstFence(lines, 1).value;
      assert 1 <= close <= |lines|;
    }
  }

  /** With a header that counts, the body is made of the lines after the
      closing fence: the leading empty lines are gone and nothing else is. */
  lemma BodyAfterFence(text: string, load: string -> Result<Yaml>)
    requires Parse(text, load).Ok? && IsValidMeta(Parse(text, load).value.meta)
    ensures var lines := SplitLines(text);
      lines[0] == Fence
      && (exists close, skip ::
            1 <= close < skip <= |lines|
            && lines[close] == Fence
            && (forall k :: 1 <= k < close ==> lines[k] != Fence)
            && (forall k :: close < k < skip ==> lines[k] == "")
            && (skip == |lines| || lines[skip] != "")
            && Parse(text, load).value.body == Join(lines[skip..], "\n"))
  {
    var lines := SplitLines(text);
    var close := FirstFence(lines, 1).value;
    var after := lines[close + 1..];
    DropLeadingEmptyKeepsRest(after);
    var rest := DropLeadingEmpty(after);
    var skip := |lines| - |rest|;
    assert lines[skip..] == rest;
    assert forall k :: close < k < skip ==> lines[k] == after[k - close - 1];
    assert skip < |lines| ==> lines[skip] == rest[0];
    ParseWithHeader(text, load, close, Parse(text, load).value.meta);
    assert 1 <= close < skip <= |lines| && lines[close] == Fence;
  }

  /** An empty header, the test "with empty meta" (`---`, `---`, `Body`):
      the empty YAML document does not load as a mapping, so the text stays
      whole, fences included. */
  lemma EmptyHeaderIsVerbatim(rest: string, load: string -> Result<Yaml>)
    requires load("").Ok? && !IsValidMeta(load("").value)
    ensures Parse(Fence + "\n" + Fence + "\n" + rest, load)
      == Ok(Post(EmptyMeta, Fence + "\n" + Fence + "\n" + rest))
  {
    var text := Fence + "\n" + Fence + "\n" + rest;
    assert text == Fence + "\n" + (Fence + "\n" + rest);
    SplitFence();
    SplitAppend(Fence, "\n", Fence + "\n" + rest);
    SplitAppend(Fence, "\n", rest);
    var lines := SplitLines(text);
    assert lines == [Fence, Fence] + SplitLines(rest);
    assert FirstFence(lines, 1) == Some(1);
    assert lines[1..1] == [];
  }

  /** A one-line header such as `tags:` (the tests "with meta contains
      expected keys", whose `tags` is null, and "ignores empty line at the
      meta of body"): the meta is what the line loads as, and the body is the
      text after the closing fence, with one empty line before it skipped. */
  lemma OneLineHeader(line: string, body: string, gap: bool, load: string -> Result<Yaml>, meta: Yaml)
    requires '\n' !in line && '\r' !in line && line != Fence
    requires load(line) == Ok(meta) && IsValidMeta(meta)
    requires '\r' !in body && SplitLines(body)[0] != ""
    ensures var sep := if gap then "\n" else "";
      Parse(Fence + "\n" + line + "\n" + Fence + "\n" + sep + body, load) == Ok(Post(meta, body))
  {
    var sep := if gap then "\n" else "";
    var bl := SplitLines(body);
    OneLineHeaderParse(line, sep + body, load, meta);
    assert Fence + "\n" + line + "\n" + Fence + "\n" + sep + body
      == Fence + "\n" + line + "\n" + Fence + "\n" + (sep + body);
    if gap {
      SplitAppend("", "\n", body);
      assert SplitLines(sep + body) == [""] + bl;
      assert ([""] + bl)[1..] == bl;
    } else {
      assert sep + body == body;
    }
    assert DropLeadingEmpty(SplitLines(sep + body)) == bl;
    JoinSplit(body);
  }

  lemma OneLineHeaderParse(line: string, rest: string, load: string -> Result<Yaml>, meta: Yaml)
    requires '\n' !in line && '\r' !in line && line != Fence
    requires load(line) == Ok(meta) && IsValidMeta(meta)
    ensures Parse(Fence + "\n" + line + "\n" + Fence + "\n" + rest, load)
      == Ok(Post(meta, Join(DropLeadingEmpty(SplitLines(rest)), "\n")))
  {
    var text := Fence + "\n" + line + "\n" + Fence + "\n" + rest;
    OneLineHeaderLines(line, rest);
    var lines := SplitLines(text);
    assert lines == [Fence, line, Fence] + SplitLines(rest);
    assert FirstFence(lines, 1) == Some(2);
    assert lines[1..2] == [line];
    assert lines[3..] == SplitLines(rest);
    ParseWithHeader(text, load, 2, meta);
  }

  lemma OneLineHeaderLines(line: string, rest: string)
    requires '\n' !in line && '\r' !in line
    ensures SplitLines(Fence + "\n" + line + "\n" + Fence + "\n" + rest)
      == [Fence, line, Fence] + SplitLines(rest)
  {
    assert Fence + "\n" + line + "\n" + Fence + "\n" + rest
      == Fence + "\n" + (line + "\n" + (Fence + "\n" + rest));
    SplitFence();
    SplitSingle(line);
    ThreeLines(Fence, line, rest);
  }

  lemma SplitFence()
    ensures SplitLines(Fence) == [Fence]
  {
    SplitSingle(Fence);
  }

  /** A text without line breaks is one line. */
  lemma {:induction false} SplitSingle(s: string)
    requires '\n' !in s
    ensures SplitLines(s) == [s]
    decreases |s|
  {
    if |s| > 0 {
      assert s[0] in s;
      assert forall c :: c in s[1..] ==> c in s;
      SplitSingle(s[1..]);
      assert s == [s[0]] + s[1..];
    }
  }
}
