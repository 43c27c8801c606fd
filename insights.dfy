/** The deterministic part of the administrator's AI insights endpoint of
    `adminController.js`: the admin guard, the choice of the text inside the
    language model's response (`extractText`) and the line-by-line parser
    that buckets that text under the SUMMARY / RECOMMENDATIONS / TOP_BOOKS /
    KPI headings. The model call itself is a parameter: its response. */
module Insights {
  import opened Wrappers
  import opened Text
  import Accounts
  import Seqs

  /** The four headings of the regular expression. */
  datatype Key = Summary | Recommendations | TopBooks | Kpi

  /** The heading as written in the expression, which is also the bucket
      name `h[1].toUpperCase()` yields. */
  function Name(k: Key): string {
    match k
    case Summary => "SUMMARY"
    case Recommendations => "RECOMMENDATIONS"
    case TopBooks => "TOP_BOOKS"
    case Kpi => "KPI"
  }

  /** The first letter of each heading; no two are alike. */
  function Initial(k: Key): (c: char)
    ensures |Name(k)| > 0 && Name(k)[0] == c
  {
    match k
    case Summary => 'S'
    case Recommendations => 'R'
    case TopBooks => 'T'
    case Kpi => 'K'
  }

  /** The headings in the expression's alternation order. */
  const AllKeys: seq<Key> := [Summary, Recommendations, TopBooks, Kpi]

  /** The keys of `byHeading`: the `raw` bucket for the lines before the first
      heading, and one bucket per heading. */
  datatype Bucket = Raw | Section(key: Key)

  // ---------------------------------------------------------------------------
  // The response object

  /** The JavaScript shapes `extractText` looks into. A missing property is
      `None`; `text` is either an array or some value that is not one. */
  datatype TextPart = TextPart(text: Option<string>)
  datatype TextField = Parts(parts: seq<Option<TextPart>>) | NotAnArray
  datatype Content = Content(text: Option<TextField>)
  datatype OutputItem = OutputItem(content: Option<Content>)
  datatype ResultField = ResultField(outputText: Option<string>)
  datatype AiResponse = AiResponse(
    outputText: Option<string>,
    outputs: Option<seq<Option<OutputItem>>>,
    result: Option<ResultField>)

  /** A string property is truthy when present and not empty. */
  predicate Truthy(s: Option<string>) {
    s.Some? && s.value != ""
  }

  /** The first truthy candidate, if any. */
  function FirstTruthy(cands: seq<Option<string>>): (r: Option<string>)
    ensures r.Some? <==> exists i :: 0 <= i < |cands| && Truthy(cands[i])
    ensures r.Some? ==> exists i :: 0 <= i < |cands| && cands[i] == r && forall j :: 0 <= j < i ==> !Truthy(cands[j])
  {
    if cands == [] then None
    else if Truthy(cands[0]) then cands[0]
    else
      var r := FirstTruthy(cands[1..]);
      assert forall i :: 1 <= i < |cands| ==> cands[i] == cands[1..][i - 1];
      r
  }

  /** The first truthy of three candidates. */
  lemma FirstOfThree(a: Option<string>, b: Option<string>, c: Option<string>)
    ensures FirstTruthy([a, b, c]) == if Truthy(a) then a else if Truthy(b) then b else if Truthy(c) then c else None
  {
    assert [a, b, c][1..] == [b, c];
    assert [b, c][1..] == [c];
    assert [c][1..] == [];
    assert FirstTruthy([c]) == if Truthy(c) then c else None;
    assert FirstTruthy([b, c]) == if Truthy(b) then b else FirstTruthy([c]);
  }

  /** `response.outputs[0].content.text[0].text`, where every step is guarded. */
  function NestedText(response: AiResponse): Option<string> {
    match response.outputs
    case None => None
    case Some(items) =>
      if items == [] || items[0].None? || items[0].value.content.None? then None
      else match items[0].value.content.value.text
        case Some(Parts(parts)) =>
          if parts == [] || parts[0].None? then None else parts[0].value.text
        case _ => None
  }

  /** `response.result.output_text`. */
  function ResultText(response: AiResponse): Option<string> {
    if response.result.None? then None else response.result.value.outputText
  }

  /** `extractText`: nothing for a null response; otherwise the first truthy
      of `output_text`, the nested text and `result.output_text`, and failing
      all three the JSON rendering of the whole response, given here as
      `render`. */
  function ExtractText(response: Option<AiResponse>, render: AiResponse -> string): (r: Option<string>)
    ensures r.None? <==> response.None?
    ensures response.Some? ==>
              var first := FirstTruthy([response.value.outputText, NestedText(response.value), ResultText(response.value)]);
              r == if first.Some? then first else Some(render(response.value))
  {
    match response
    case None => None
    case Some(resp) =>
      FirstOfThree(resp.outputText, NestedText(resp), ResultText(resp));
      if Truthy(resp.outputText) then resp.outputText
      else if Truthy(NestedText(resp)) then NestedText(resp)
      else if Truthy(ResultText(resp)) then ResultText(resp)
      else Some(render(resp))
  }

  // ---------------------------------------------------------------------------
  // Heading recognition: /^\s*(SUMMARY|RECOMMENDATIONS|TOP_BOOKS|KPI)\s*[:\-]?/i

  /** The length of the run of white space in `s` starting at `from`. */
  function SpaceRun(s: string, from: nat): (n: nat)
    requires from <= |s|
    ensures from + n <= |s|
    decreases |s| - from
  {
    if from == |s| || !IsSpace(s[from]) then 0 else 1 + SpaceRun(s, from + 1)
  }

  /** What `SpaceRun` measures is a run of white space that ends where the
      text does or at a character that is not white space. */
  lemma {:induction false} SpaceRunIsRun(s: string, from: nat)
    requires from <= |s|
    ensures forall i :: from <= i < from + SpaceRun(s, from) ==> IsSpace(s[i])
    ensures from + SpaceRun(s, from) == |s| || !IsSpace(s[from + SpaceRun(s, from)])
    decreases |s| - from
  {
    if from < |s| && IsSpace(s[from]) {
      SpaceRunIsRun(s, from + 1);
    }
  }

  /** A run of white space that ends where the text does or at a non-space
      is the run `SpaceRun` measures. */
  lemma {:induction false} SpaceRunExact(s: string, from: nat, n: nat)
    requires from + n <= |s|
    requires forall i :: from <= i < from + n ==> IsSpace(s[i])
    requires from + n == |s| || !IsSpace(s[from + n])
    ensures SpaceRun(s, from) == n
    decreases n
  {
    if n > 0 {
      SpaceRunExact(s, from + 1, n - 1);
    }
  }

  /** `s` continues at `at` with `k`, ignoring the case of ASCII letters
      (`k` itself being upper case). */
  predicate StartsFold(s: string, at: nat, k: string) {
    at + |k| <= |s| && FoldsFrom(s, at, k)
  }

  /** Each character of `k` is the upper case of the one at the same place
      of `s` from `at` on. */
  predicate FoldsFrom(s: string, at: nat, k: string)
    decreases |k|
  {
    k == [] || (at < |s| && UpperChar(s[at]) == k[0] && FoldsFrom(s, at + 1, k[1..]))
  }

  /** The same, as the upper-cased stretch of `s` that `k` covers. */
  lemma {:induction false} StartsFoldUpper(s: string, at: nat, k: string)
    ensures StartsFold(s, at, k) <==> at + |k| <= |s| && ToUpper(s[at..at + |k|]) == k
    decreases |k|
  {
    if k != [] && at < |s| {
      StartsFoldUpper(s, at + 1, k[1..]);
      assert StartsFold(s, at, k) <==> at + |k| <= |s| && UpperChar(s[at]) == k[0] && StartsFold(s, at + 1, k[1..]);
      if at + |k| <= |s| {
        var u := ToUpper(s[at..at + |k|]);
        var v := ToUpper(s[at + 1..at + |k|]);
        assert u[0] == UpperChar(s[at]);
        assert u[1..] == v;
        assert u == k <==> u[0] == k[0] && u[1..] == k[1..];
      }
    }
  }

  /** The first keyword of `ks` that `s` continues with at `at`. */
  function KeywordFrom(s: string, at: nat, ks: seq<Key>): (r: Option<Key>)
    ensures r.Some? ==> r.value in ks && StartsFold(s, at, Name(r.value))
    ensures r.None? <==> forall k :: k in ks ==> !StartsFold(s, at, Name(k))
  {
    if ks == [] then None
    else if StartsFold(s, at, Name(ks[0])) then Some(ks[0])
    else KeywordFrom(s, at, ks[1..])
  }

  /** No two headings can start at the same place: their first letters differ. */
  lemma KeywordsExclusive(s: string, at: nat, k1: Key, k2: Key)
    requires StartsFold(s, at, Name(k1)) && StartsFold(s, at, Name(k2))
    ensures k1 == k2
  {
    assert UpperChar(s[at]) == Initial(k1);
    assert UpperChar(s[at]) == Initial(k2);
  }

  /** A recognised heading: its keyword and the length of the whole match at
      the start of the line. */
  datatype Heading = Heading(key: Key, length: nat)

  /** `line.match(...)`: leading white space, a keyword in any case, white
      space, and at most one ':' or '-'. */
  function MatchHeading(line: string): (r: Option<Heading>)
    ensures r.Some? ==> r.value.length <= |line|
  {
    HeadingAt(line, SpaceRun(line, 0))
  }

  /** The match once the leading white space, up to `a`, is skipped. */
  function HeadingAt(line: string, a: nat): (r: Option<Heading>)
    requires a <= |line|
    ensures r.Some? ==> r.value.length <= |line|
  {
    HeadingFor(line, a, KeywordFrom(line, a, AllKeys))
  }

  /** The match given the keyword found after the white space, if any. */
  function HeadingFor(line: string, a: nat, found: Option<Key>): (r: Option<Heading>)
    requires found.Some? ==> a + |Name(found.value)| <= |line|
    ensures r.Some? ==> r.value.length <= |line|
  {
    match found
    case None => None
    case Some(k) => Some(Heading(k, SeparatorAfter(line, a + |Name(k)|)))
  }

  /** The end of the match once the keyword, up to `b`, is read: the white
      space after it, then the separator. */
  function SeparatorAfter(line: string, b: nat): (r: nat)
    requires b <= |line|
    ensures b <= r <= |line|
  {
    SeparatorEnd(line, b + SpaceRun(line, b))
  }

  /** `[:\-]?` at `c`: one past a ':' or '-' there, else `c`. */
  function SeparatorEnd(line: string, c: nat): (r: nat)
    requires c <= |line|
    ensures c <= r <= |line|
  {
    if c < |line| && (line[c] == ':' || line[c] == '-') then c + 1 else c
  }

  /** A line is a heading exactly when, after its leading white space, it
      continues with one of the keywords in any case; the bucket is that
      keyword's. */
  lemma HeadingWhen(line: string)
    ensures MatchHeading(line).Some? ==> StartsFold(line, SpaceRun(line, 0), Name(MatchHeading(line).value.key))
    ensures MatchHeading(line).Some? <==> exists k: Key :: StartsFold(line, SpaceRun(line, 0), Name(k))
  {
    var a := SpaceRun(line, 0);
    if KeywordFrom(line, a, AllKeys).None? {
      forall k: Key
        ensures !StartsFold(line, a, Name(k))
      {
        KeyListed(k);
      }
    }
  }

  /** How the expression splits a heading line: white space up to `a`, the
      keyword in any case up to `b`, white space up to `c` (as much as there
      is), then one ':' or '-' if there is one. The match covers exactly
      that much. */
  lemma HeadingLine(line: string, a: nat, b: nat, c: nat, k: Key)
    requires a <= b <= c <= |line|
    requires forall i :: 0 <= i < a ==> IsSpace(line[i])
    requires ToUpper(line[a..b]) == Name(k)
    requires forall i :: b <= i < c ==> IsSpace(line[i])
    requires c == |line| || !IsSpace(line[c])
    ensures MatchHeading(line) == Some(Heading(k, SeparatorEnd(line, c)))
  {
    KeywordHeading(line, a, b, k);
    SeparatorAfterSpaces(line, b, c);
  }

  /** White space, then the keyword in any case up to `b`: the match
      continues after `b`. */
  lemma KeywordHeading(line: string, a: nat, b: nat, k: Key)
    requires a <= b <= |line|
    requires forall i :: 0 <= i < a ==> IsSpace(line[i])
    requires ToUpper(line[a..b]) == Name(k)
    ensures MatchHeading(line) == Some(Heading(k, SeparatorAfter(line, b)))
  {
    StartsFoldUpper(line, a, Name(k));
    InitialNotSpace(line[a..b], k);
    assert line[a..b][0] == line[a];
    KeywordHeadingAt(line, a, k);
    MatchAfterSpaces(line, a, Some(Heading(k, SeparatorAfter(line, b))));
  }

  /** After the leading white space, the keyword is found and the match
      continues after it. */
  lemma KeywordHeadingAt(line: string, a: nat, k: Key)
    requires a + |Name(k)| <= |line|
    requires forall i :: 0 <= i < a ==> IsSpace(line[i])
    requires a == |line| || !IsSpace(line[a])
    requires StartsFold(line, a, Name(k))
    ensures SpaceRun(line, 0) == a
    ensures HeadingAt(line, a) == Some(Heading(k, SeparatorAfter(line, a + |Name(k)|)))
  {
    SpaceRunExact(line, 0, a);
    KeywordFound(line, a, k);
    HeadingAtFound(line, a, k);
  }

  /** The match skips the leading white space. */
  lemma MatchAfterSpaces(line: string, a: nat, h: Option<Heading>)
    requires a <= |line| && SpaceRun(line, 0) == a
    requires HeadingAt(line, a) == h
    ensures MatchHeading(line) == h
  {
  }

  /** The white space after the keyword, up to `c`, is skipped before the
      separator. */
  lemma SeparatorAfterSpaces(line: string, b: nat, c: nat)
    requires b <= c <= |line|
    requires forall i :: b <= i < c ==> IsSpace(line[i])
    requires c == |line| || !IsSpace(line[c])
    ensures SeparatorAfter(line, b) == SeparatorEnd(line, c)
  {
    SpaceRunExact(line, b, c - b);
    SeparatorAfterRun(line, b, c);
  }

  /** A line whose first non-blank text is not one of the keywords, in any
      case, is not a heading. */
  lemma NotHeadingLine(line: string, a: nat)
    requires a <= |line|
    requires forall i :: 0 <= i < a ==> IsSpace(line[i])
    requires a == |line| || !IsSpace(line[a])
    requires forall k: Key :: !StartsFold(line, a, Name(k))
    ensures MatchHeading(line).None?
  {
    SpaceRunExact(line, 0, a);
    HeadingWhen(line);
  }

  /** The match after the white space, once the keyword there is known. */
  lemma HeadingAtFound(line: string, a: nat, k: Key)
    requires a <= |line| && KeywordFrom(line, a, AllKeys) == Some(k)
    ensures a + |Name(k)| <= |line|
    ensures HeadingAt(line, a) == Some(Heading(k, SeparatorAfter(line, a + |Name(k)|)))
  {
    assert HeadingAt(line, a) == HeadingFor(line, a, Some(k));
  }

  /** The separator is looked for where the white space after the keyword ends. */
  lemma SeparatorAfterRun(line: string, b: nat, c: nat)
    requires b <= c <= |line| && SpaceRun(line, b) == c - b
    ensures SeparatorAfter(line, b) == SeparatorEnd(line, c)
  {
    assert b + SpaceRun(line, b) == c;
  }

  /** The first letter of a keyword written in any case is not white space. */
  lemma InitialNotSpace(word: string, k: Key)
    requires ToUpper(word) == Name(k)
    ensures word != [] && !IsSpace(word[0])
  {
    assert UpperChar(word[0]) == Initial(k);
  }

  /** Every key is on the list the expression tries. */
  lemma KeyListed(k: Key)
    ensures k in AllKeys
  {
    match k
    case Summary =>
    case Recommendations =>
    case TopBooks =>
    case Kpi =>
  }

  /** A keyword that the line continues with at `at` is the one found there. */
  lemma KeywordFound(line: string, at: nat, k: Key)
    requires StartsFold(line, at, Name(k))
    ensures KeywordFrom(line, at, AllKeys) == Some(k)
  {
    assert k in AllKeys;
    var found := KeywordFrom(line, at, AllKeys);
    KeywordsExclusive(line, at, found.value, k);
  }

  /** What a heading line leaves for its bucket: the trimmed remainder, kept
      only when not empty. */
  function Kept(line: string, h: Heading): (r: seq<string>)
    requires h.length <= |line|
    ensures |r| <= 1
    ensures forall x :: x in r ==> x != "" && x == Trim(line[h.length..])
    ensures Trim(line[h.length..]) != "" ==> r == [Trim(line[h.length..])]
  {
    var rest := Trim(line[h.length..]);
    if rest == "" then [] else [rest]
  }

  /** A line as the parser sees it: a heading with what it keeps for its
      bucket, or any other line, kept as it is. */
  datatype Line = Header(key: Key, kept: seq<string>) | Plain(text: string)

  /** One line of the text, read. */
  function ReadLine(line: string): (r: Line)
    ensures r.Header? <==> MatchHeading(line).Some?
    ensures r.Header? ==> r.key == MatchHeading(line).value.key && r.kept == Kept(line, MatchHeading(line).value)
    ensures r.Plain? ==> r.text == line
  {
    match MatchHeading(line)
    case Some(h) => Header(h.key, Kept(line, h))
    case None => Plain(line)
  }

  /** Every line of the text, read. */
  function ReadLines(lines: seq<string>): (r: seq<Line>)
    ensures |r| == |lines|
    ensures forall i :: 0 <= i < |lines| ==> r[i] == ReadLine(lines[i])
  {
    Seqs.Map(ReadLine, lines)
  }

  /** Lines none of which is a heading are read as plain lines. */
  lemma ReadPlainLines(lines: seq<string>)
    requires forall i :: 0 <= i < |lines| ==> MatchHeading(lines[i]).None?
    ensures ReadLines(lines) == Plains(lines)
  {
  }

  // ---------------------------------------------------------------------------
  // The section parser

  /** The loop's state: the current bucket and the buckets so far. */
  datatype ParseState = ParseState(current: Bucket, byHeading: map<Bucket, seq<string>>)

  /** One iteration: a heading switches to its bucket, emptied and holding
      what the heading line kept; any other line goes to the current bucket. */
  function Step(s: ParseState, line: Line): (r: ParseState)
    requires s.current in s.byHeading
    ensures r.current in r.byHeading
  {
    match line
    case Header(k, kept) => ParseState(Section(k), s.byHeading[Section(k) := kept])
    case Plain(text) => ParseState(s.current, s.byHeading[s.current := s.byHeading[s.current] + [text]])
  }

  /** The parser over the lines so far. The current bucket and `raw` always
      exist. */
  function Parse(lines: seq<Line>): (s: ParseState)
    ensures s.current in s.byHeading && Raw in s.byHeading
  {
    if lines == [] then ParseState(Raw, map[Raw := []])
    else Step(Parse(lines[..|lines| - 1]), lines[|lines| - 1])
  }

  /** The parser runs one more step for one more line. */
  lemma ParseSnoc(lines: seq<Line>, line: Line)
    ensures Parse(lines + [line]) == Step(Parse(lines), line)
  {
    assert (lines + [line])[..|lines|] == lines;
  }

  /** Every section bucket belongs to a heading that some line carried. */
  lemma {:induction false} SectionsHaveHeadings(lines: seq<Line>, k: Key)
    requires Section(k) in Parse(lines).byHeading
    ensures exists i :: 0 <= i < |lines| && lines[i].Header? && lines[i].key == k
  {
    var init := lines[..|lines| - 1];
    if Section(k) in Parse(init).byHeading {
      SectionsHaveHeadings(init, k);
      var i :| 0 <= i < |init| && init[i].Header? && init[i].key == k;
      assert init[i] == lines[i];
    } else {
      assert lines[|lines| - 1].Header? && lines[|lines| - 1].key == k;
    }
  }

  /** The texts of plain lines given as strings. */
  function Plains(texts: seq<string>): (r: seq<Line>)
    ensures |r| == |texts|
    ensures forall i :: 0 <= i < |texts| ==> r[i] == Plain(texts[i])
  {
    seq(|texts|, i requires 0 <= i < |texts| => Plain(texts[i]))
  }

  /** The state after appending `more` to the current bucket. */
  function Extend(s: ParseState, more: seq<string>): (r: ParseState)
    requires s.current in s.byHeading
    ensures r.current == s.current && r.byHeading.Keys == s.byHeading.Keys
    ensures r.byHeading[s.current] == s.byHeading[s.current] + more
    ensures forall b :: b in s.byHeading && b != s.current ==> r.byHeading[b] == s.byHeading[b]
  {
    ParseState(s.current, s.byHeading[s.current := s.byHeading[s.current] + more])
  }

  /** Appending nothing leaves the state as it is. */
  lemma ExtendNothing(s: ParseState)
    requires s.current in s.byHeading
    ensures Extend(s, []) == s
  {
    assert s.byHeading[s.current] + [] == s.byHeading[s.current];
  }

  /** A plain line after `more` extends the current bucket by one more line. */
  lemma ExtendStep(s: ParseState, more: seq<string>, text: string)
    requires s.current in s.byHeading
    ensures Step(Extend(s, more), Plain(text)) == Extend(s, more + [text])
  {
    assert s.byHeading[s.current] + more + [text] == s.byHeading[s.current] + (more + [text]);
  }

  /** Lines with no heading go, in order, to the end of the current bucket;
      no other bucket changes. */
  lemma {:induction false} PlainLinesAppend(lines: seq<Line>, more: seq<string>)
    ensures Parse(lines + Plains(more)) == Extend(Parse(lines), more)
    decreases |more|
  {
    if more == [] {
      assert lines + Plains(more) == lines;
      ExtendNothing(Parse(lines));
    } else {
      var init := more[..|more| - 1];
      var last := more[|more| - 1];
      PlainLinesAppend(lines, init);
      assert Plains(more) == Plains(init) + [Plain(last)];
      assert lines + Plains(more) == (lines + Plains(init)) + [Plain(last)];
      ParseSnoc(lines + Plains(init), Plain(last));
      ExtendStep(Parse(lines), init, last);
      assert init + [last] == more;
    }
  }

  /** Once a heading has been seen, `raw` never changes again. */
  lemma {:induction false} RawFrozen(lines: seq<Line>, more: seq<Line>)
    requires Parse(lines).current != Raw
    ensures Parse(lines + more).current != Raw
    ensures Parse(lines + more).byHeading[Raw] == Parse(lines).byHeading[Raw]
    decreases |more|
  {
    if more == [] {
      assert lines + more == lines;
    } else {
      var init := more[..|more| - 1];
      var last := more[|more| - 1];
      RawFrozen(lines, init);
      assert lines + more == (lines + init) + [last];
      ParseSnoc(lines + init, last);
    }
  }

  /** Text with no heading goes entirely, and in order, to `raw`. */
  lemma PlainLinesGoToRaw(texts: seq<string>)
    ensures Parse(Plains(texts)) == ParseState(Raw, map[Raw := texts])
  {
    var s0 := ParseState(Raw, map[Raw := []]);
    assert Parse([]) == s0;
    PlainLinesAppend([], texts);
    assert [] + Plains(texts) == Plains(texts);
    ExtendRaw(texts);
  }

  /** Extending the empty `raw` bucket. */
  lemma ExtendRaw(texts: seq<string>)
    ensures Extend(ParseState(Raw, map[Raw := []]), texts) == ParseState(Raw, map[Raw := texts])
  {
    var m := map[Raw := []];
    assert m[Raw := m[Raw] + texts] == map[Raw := texts] by {
      assert m[Raw] + texts == texts;
    }
  }

  /** The `raw` bucket holds exactly the lines before the first heading. */
  lemma RawStopsAtFirstHeading(plain: seq<string>, k: Key, kept: seq<string>, rest: seq<Line>)
    ensures Parse(Plains(plain) + [Header(k, kept)] + rest).byHeading[Raw] == plain
  {
    var first := Plains(plain) + [Header(k, kept)];
    PlainLinesGoToRaw(plain);
    ParseSnoc(Plains(plain), Header(k, kept));
    RawFrozen(first, rest);
  }

  /** After the last heading for a key, that key's bucket holds what the
      heading line kept followed by every later line: whatever was collected
      under an earlier occurrence of the same heading is gone. */
  lemma LastHeadingWins(before: seq<Line>, k: Key, kept: seq<string>, after: seq<string>)
    ensures Parse(before + [Header(k, kept)] + Plains(after)).current == Section(k)
    ensures Parse(before + [Header(k, kept)] + Plains(after)).byHeading[Section(k)] == kept + after
  {
    ParseSnoc(before, Header(k, kept));
    PlainLinesAppend(before + [Header(k, kept)], after);
  }

  /** `(byHeading[key] || []).join("\n").trim() || null`. */
  function SectionText(byHeading: map<Bucket, seq<string>>, key: Bucket): (r: Option<string>)
    ensures key !in byHeading ==> r.None?
    ensures r.Some? ==> r.value != "" && !IsSpace(r.value[0]) && !IsSpace(r.value[|r.value| - 1])
    ensures r.Some? ==> exists a, b :: TrimmedAt(Join(byHeading[key], "\n"), r.value, a, b)
    ensures key in byHeading && r.None? ==>
              forall i :: 0 <= i < |Join(byHeading[key], "\n")| ==> IsSpace(Join(byHeading[key], "\n")[i])
  {
    var lines := if key in byHeading then byHeading[key] else [];
    var joined := Join(lines, "\n");
    var text := Trim(joined);
    if text == "" then
      TrimEmpty(joined);
      None
    else Some(text)
  }

  /** A section whose heading no line carried is null. */
  lemma AbsentHeadingIsNull(lines: seq<Line>, k: Key)
    requires forall i :: 0 <= i < |lines| && lines[i].Header? ==> lines[i].key != k
    ensures SectionText(Parse(lines).byHeading, Section(k)).None?
  {
    if Section(k) in Parse(lines).byHeading {
      SectionsHaveHeadings(lines, k);
    }
  }

  /** A heading that keeps the remainder of its line, last in the text,
      gives that remainder as its section. */
  lemma OneLineSection(before: seq<Line>, k: Key, remainder: string)
    requires Trim(remainder) != ""
    ensures SectionText(Parse(before + [Header(k, [Trim(remainder)])]).byHeading, Section(k))
            == Some(Trim(remainder))
  {
    LastHeadingWins(before, k, [Trim(remainder)], []);
    assert before + [Header(k, [Trim(remainder)])] + Plains([]) == before + [Header(k, [Trim(remainder)])];
    assert [Trim(remainder)] + [] == [Trim(remainder)];
    TrimIdempotent(remainder);
  }

  /** Trimming trimmed text changes nothing. */
  lemma TrimIdempotent(s: string)
    ensures Trim(Trim(s)) == Trim(s)
  {
    var t := Trim(s);
    var a, b :| TrimmedAt(t, Trim(t), a, b);
    if t != [] {
      assert !IsSpace(t[0]) && !IsSpace(t[|t| - 1]);
    }
  }

  /** Reading one more line reads one more line. */
  lemma ReadLinesSnoc(lines: seq<string>, i: nat)
    requires i < |lines|
    ensures ReadLines(lines[..i + 1]) == ReadLines(lines[..i]) + [ReadLine(lines[i])]
  {
    assert lines[..i + 1] == lines[..i] + [lines[i]];
    Seqs.MapAppend(ReadLine, lines[..i], [lines[i]]);
  }

  /** The parser as the handler runs it: a loop over the lines that switches
      the current bucket and appends to it. */
  method BucketLines(lines: seq<string>) returns (byHeading: map<Bucket, seq<string>>)
    ensures byHeading == Parse(ReadLines(lines)).byHeading
  {
    var current := Raw;
    byHeading := map[Raw := []];
    var i := 0;
    while i < |lines|
      invariant 0 <= i <= |lines|
      invariant ParseState(current, byHeading) == Parse(ReadLines(lines[..i]))
    {
      var line := lines[i];
      ReadLinesSnoc(lines, i);
      ParseSnoc(ReadLines(lines[..i]), ReadLine(line));
      var h := MatchHeading(line);
      if h.Some? {
        current := Section(h.value.key);
        byHeading := byHeading[current := Kept(line, h.value)];
      } else {
        byHeading := byHeading[current := byHeading[current] + [line]];
      }
      i := i + 1;
    }
    assert lines[..|lines|] == lines;
  }

  // ---------------------------------------------------------------------------
  // The endpoint

  /** The answer of `aiInsights`. */
  datatype InsightsResult =
    | Unauthorized   // 403
    | NoOutput       // 500 "No output_text from Mistral API"
    | Insights(summary: Option<string>, recommendations: Option<string>,
               topBooks: Option<string>, kpi: Option<string>, raw: string)

  /** The guard: an authenticated requester whose role is exactly "admin". */
  predicate IsAdmin(requester: Option<Accounts.Claims>) {
    requester.Some? && requester.value.role == "admin"
  }

  /** A section field is null or non-empty text that starts and ends with
      something other than white space. */
  predicate CleanSection(s: Option<string>) {
    s.Some? ==> s.value != "" && !IsSpace(s.value[0]) && !IsSpace(s.value[|s.value| - 1])
  }

  /** The sections of an extracted text. */
  function Sections(extracted: string): (r: InsightsResult)
    ensures r.Insights? && r.raw == extracted
    ensures CleanSection(r.summary) && CleanSection(r.recommendations)
    ensures CleanSection(r.topBooks) && CleanSection(r.kpi)
  {
    var byHeading := Parse(ReadLines(SplitLines(extracted))).byHeading;
    Insights(SectionText(byHeading, Section(Summary)), SectionText(byHeading, Section(Recommendations)),
             SectionText(byHeading, Section(TopBooks)), SectionText(byHeading, Section(Kpi)), extracted)
  }

  /** `aiInsights` for a given model response: refused for anyone but an
      administrator whatever the response would be, a server error when
      nothing could be extracted, and otherwise the four sections beside the
      extracted text. */
  function AiInsights(requester: Option<Accounts.Claims>, response: Option<AiResponse>,
                      render: AiResponse -> string): (r: InsightsResult)
    ensures r.Unauthorized? <==> !IsAdmin(requester)
    ensures r.NoOutput? <==> IsAdmin(requester) && (response.None? || ExtractText(response, render) == Some(""))
    ensures r.Insights? ==> Some(r.raw) == ExtractText(response, render) && r.raw != ""
    ensures r.Insights? ==>
              CleanSection(r.summary) && CleanSection(r.recommendations) && CleanSection(r.topBooks) && CleanSection(r.kpi)
  {
    if !IsAdmin(requester) then Unauthorized
    else
      var extracted := ExtractText(response, render);
      if extracted.None? || extracted.value == "" then NoOutput
      else Sections(extracted.value)
  }

  /** The guard comes first: a non-administrator's answer is the same for
      every response the model could have given. */
  lemma GuardBeforeModelCall(requester: Option<Accounts.Claims>, r1: Option<AiResponse>, r2: Option<AiResponse>,
                             render1: AiResponse -> string, render2: AiResponse -> string)
    requires !IsAdmin(requester)
    ensures AiInsights(requester, r1, render1) == AiInsights(requester, r2, render2) == Unauthorized
  {
  }

  /** A text with no heading at all has four null sections beside the whole
      text as `raw`. */
  lemma NoHeadingsNoSections(extracted: string)
    requires forall i :: 0 <= i < |SplitLines(extracted)| ==> MatchHeading(SplitLines(extracted)[i]).None?
    ensures Sections(extracted) == Insights(None, None, None, None, extracted)
  {
    var lines := SplitLines(extracted);
    ReadPlainLines(lines);
    PlainLinesGoToRaw(lines);
    var byHeading := Parse(ReadLines(lines)).byHeading;
    assert byHeading == map[Raw := lines];
    assert forall k :: Section(k) !in byHeading;
  }

  /** The handler, with the model's response obtained only after the guard. */
  method AiInsightsHandler(requester: Option<Accounts.Claims>, response: Option<AiResponse>,
                           render: AiResponse -> string) returns (r: InsightsResult)
    ensures r == AiInsights(requester, response, render)
  {
    if !IsAdmin(requester) {
      return Unauthorized;
    }
    var extracted := ExtractText(response, render);
    if extracted.None? || extracted.value == "" {
      return NoOutput;
    }
    var byHeading := BucketLines(SplitLines(extracted.value));
    r := Insights(SectionText(byHeading, Section(Summary)), SectionText(byHeading, Section(Recommendations)),
                  SectionText(byHeading, Section(TopBooks)), SectionText(byHeading, Section(Kpi)), extracted.value);
  }
}
