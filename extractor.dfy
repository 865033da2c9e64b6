/** The block extractor `extractUICPBlocks`: the fence pattern
    /```uicp\s*\n([\s\S]*?)```/g written out as a scanner, the parse-and-accept step, the
    placeholder substitution and the truncation at a surviving opening fence. */
module Extractor {
  import opened Wrappers
  import opened Text
  import opened Json

  /** The opening fence of a protocol block. */
  const Open: string := "```uicp"
  /** The closing fence. */
  const Fence: string := "```"

  /** An accepted block: its truthy `uid` and `data` values as parsed. */
  datatype Block = Block(uid: Value, data: Value)

  /** What `extractUICPBlocks` returns. */
  datatype Extraction = Extraction(blocks: seq<Block>, text: string)

  /** One match of the fence pattern: `[start, end)` is `match[0]` and
      `[bodyStart, bodyEnd)` is the captured body `match[1]`. */
  datatype Match = Match(start: nat, bodyStart: nat, bodyEnd: nat, end: nat)

  /** `m` has the shape the pattern demands at `p`: the opening fence, a run of whitespace
      ending in a newline, a body holding no closing fence, then the closing fence. */
  predicate IsMatch(s: string, p: nat, m: Match) {
    && m.start == p
    && p + |Open| < m.bodyStart <= m.bodyEnd
    && m.end == m.bodyEnd + |Fence| <= |s|
    && StartsAt(s, p, Open)
    && s[m.bodyStart - 1] == '\n'
    && (forall i :: p + |Open| <= i < m.bodyStart ==> IsWhitespace(s[i]))
    && StartsAt(s, m.bodyEnd, Fence)
    && (forall j :: m.bodyStart <= j < m.bodyEnd ==> !StartsAt(s, j, Fence))
  }

  /** End of the maximal whitespace run starting at `i`. */
  function RunEnd(s: string, i: nat): (r: nat)
    requires i <= |s|
    decreases |s| - i
    ensures i <= r <= |s|
    ensures r == |s| || !IsWhitespace(s[r])
  {
    if i < |s| && IsWhitespace(s[i]) then RunEnd(s, i + 1) else i
  }

  /** The run is whitespace throughout. */
  lemma {:induction false} RunEndSpec(s: string, i: nat)
    requires i <= |s|
    decreases |s| - i
    ensures forall k :: i <= k < RunEnd(s, i) ==> IsWhitespace(s[k])
  {
    if i < |s| && IsWhitespace(s[i]) {
      RunEndSpec(s, i + 1);
    }
  }

  /** The last newline in `s[lo..hi]`. */
  function LastNewline(s: string, lo: nat, hi: nat): (r: Option<nat>)
    requires lo <= hi <= |s|
    decreases hi - lo
    ensures r.Some? ==> lo <= r.value < hi && s[r.value] == '\n'
  {
    if lo == hi then None
    else if s[hi - 1] == '\n' then Some(hi - 1)
    else LastNewline(s, lo, hi - 1)
  }

  /** It is the last one, and there is none when it finds none. */
  lemma {:induction false} LastNewlineSpec(s: string, lo: nat, hi: nat)
    requires lo <= hi <= |s|
    decreases hi - lo
    ensures LastNewline(s, lo, hi).Some? ==>
      forall k :: LastNewline(s, lo, hi).value < k < hi ==> s[k] != '\n'
    ensures LastNewline(s, lo, hi).None? ==> forall k :: lo <= k < hi ==> s[k] != '\n'
  {
    if lo < hi && s[hi - 1] != '\n' {
      LastNewlineSpec(s, lo, hi - 1);
    }
  }

  /** The pattern tried at exactly position `p`. The greedy `\s*` followed by `\n` settles on
      the last newline of the whitespace run, and the lazy body stops at the first closing
      fence after it. A shorter `\s*` cannot help: whitespace holds no backtick, so the
      first closing fence after any earlier newline of the run is the same one. */
  function MatchAt(s: string, p: nat): (r: Option<Match>)
    ensures r.Some? ==> Spans(s, p, r.value)
    ensures !StartsAt(s, p, Open) ==> r.None?
  {
    if !StartsAt(s, p, Open) then None
    else
      var w := RunEnd(s, p + |Open|);
      match LastNewline(s, p + |Open|, w)
      case None => None
      case Some(nl) => MatchAfter(s, p, nl)
  }

  /** The rest of the match at `p` once the newline ending the whitespace run is at `nl`:
      the lazy body runs to the first closing fence after it. */
  function MatchAfter(s: string, p: nat, nl: nat): (r: Option<Match>)
    requires p < nl + 1
    ensures r.Some? ==> r.value.start == p && r.value.bodyStart == nl + 1
  {
    match FindFrom(s, Fence, nl + 1)
    case None => None
    case Some(e) => Some(Match(p, nl + 1, e, e + |Fence|))
  }

  /** The positions of a match at `p` are in order and inside `s`. */
  predicate Spans(s: string, p: nat, m: Match) {
    m.start == p < m.bodyStart <= m.bodyEnd < m.end == m.bodyEnd + |Fence| <= |s|
  }

  /** What `MatchAt` finds has the shape the pattern demands. */
  lemma MatchAtShape(s: string, p: nat)
    requires MatchAt(s, p).Some?
    ensures IsMatch(s, p, MatchAt(s, p).value)
  {
    var o := p + |Open|;
    match LastNewline(s, o, RunEnd(s, o))
    case Some(nl) =>
      match FindFrom(s, Fence, nl + 1)
      case Some(e) =>
        assert MatchAt(s, p) == Some(Match(p, nl + 1, e, e + |Fence|));
        NewlineInRun(s, o, nl);
        FindFromSpec(s, Fence, nl + 1);
  }

  /** The newline the scanner settles on ends a stretch of whitespace. */
  lemma NewlineInRun(s: string, o: nat, nl: nat)
    requires o <= |s| && LastNewline(s, o, RunEnd(s, o)) == Some(nl)
    ensures forall k :: o <= k < nl + 1 ==> IsWhitespace(s[k])
  {
    RunEndSpec(s, o);
  }

  /** The whitespace run from `i` reaches past a stretch of whitespace that starts there. */
  lemma {:induction false} RunEndReaches(s: string, i: nat, b: nat)
    requires i <= b <= |s|
    requires forall k :: i <= k < b ==> IsWhitespace(s[k])
    decreases b - i
    ensures b <= RunEnd(s, i)
  {
    if i < b {
      RunEndReaches(s, i + 1, b);
    }
  }

  /** The last newline of a range is at or after any newline in it. */
  lemma {:induction false} LastNewlineAtLeast(s: string, lo: nat, hi: nat, n: nat)
    requires lo <= n < hi <= |s| && s[n] == '\n'
    decreases hi - lo
    ensures LastNewline(s, lo, hi).Some? && n <= LastNewline(s, lo, hi).value
  {
    if s[hi - 1] != '\n' {
      LastNewlineAtLeast(s, lo, hi - 1, n);
    }
  }

  /** Every way the pattern can match at `p` is found by `MatchAt`: the match it returns has
      the same extent and the same closing fence, and its body starts no earlier (the greedy
      `\s*` takes the whole newline run). */
  lemma MatchAtComplete(s: string, p: nat, m: Match)
    requires IsMatch(s, p, m)
    ensures MatchAt(s, p).Some?
    ensures MatchAt(s, p).value.start == m.start && MatchAt(s, p).value.end == m.end
    ensures MatchAt(s, p).value.bodyEnd == m.bodyEnd
    ensures m.bodyStart <= MatchAt(s, p).value.bodyStart
  {
    var o := p + |Open|;
    assert s[m.bodyEnd] == s[m.bodyEnd..m.bodyEnd + 3][0];
    RunNewline(s, o, m.bodyStart, m.bodyEnd);
    var nl := LastNewline(s, o, RunEnd(s, o)).value;
    MatchAtVia(s, p, nl, m.bodyEnd);
  }

  /** `MatchAt` from its newline and the first closing fence after it. */
  lemma MatchAtVia(s: string, p: nat, nl: nat, e: nat)
    requires StartsAt(s, p, Open)
    requires p + |Open| <= |s| && LastNewline(s, p + |Open|, RunEnd(s, p + |Open|)) == Some(nl)
    requires nl + 1 <= e && StartsAt(s, e, Fence)
    requires forall j :: nl + 1 <= j < e ==> !StartsAt(s, j, Fence)
    ensures MatchAt(s, p) == Some(Match(p, nl + 1, e, e + |Fence|))
  {
    FindFromFirst(s, Fence, nl + 1, e);
    MatchAtOf(s, p, nl, e);
  }

  /** A whitespace stretch from `o` ending in a newline just before `b`, and a character that
      is not whitespace at `e`: the scanner's newline is at or after `b - 1` and before `e`. */
  lemma RunNewline(s: string, o: nat, b: nat, e: nat)
    requires o < b <= e < |s| && s[b - 1] == '\n' && !IsWhitespace(s[e])
    requires forall k :: o <= k < b ==> IsWhitespace(s[k])
    ensures LastNewline(s, o, RunEnd(s, o)).Some?
    ensures b - 1 <= LastNewline(s, o, RunEnd(s, o)).value < e
  {
    RunEndReaches(s, o, b);
    RunEndBefore(s, o, e);
    LastNewlineAtLeast(s, o, RunEnd(s, o), b - 1);
  }

  /** The whitespace run from `i` stops at or before a character that is not whitespace. */
  lemma {:induction false} RunEndBefore(s: string, i: nat, e: nat)
    requires i <= e < |s| && !IsWhitespace(s[e])
    decreases e - i
    ensures RunEnd(s, i) <= e
  {
    if i < e {
      RunEndBefore(s, i + 1, e);
    }
  }

  /** `MatchAt` from where its two searches land. */
  lemma MatchAtOf(s: string, p: nat, nl: nat, e: nat)
    requires StartsAt(s, p, Open)
    requires p + |Open| <= |s| && LastNewline(s, p + |Open|, RunEnd(s, p + |Open|)) == Some(nl)
    requires FindFrom(s, Fence, nl + 1) == Some(e)
    ensures MatchAt(s, p) == Some(Match(p, nl + 1, e, e + |Fence|))
  {
  }

  /** `regex.exec(s)` with `lastIndex == from`: the leftmost match starting at or after `from`. */
  function Exec(s: string, from: nat): (r: Option<Match>)
    decreases |s| - from
    ensures r.Some? ==> from <= r.value.start && MatchAt(s, r.value.start) == r
  {
    if from >= |s| then None
    else match MatchAt(s, from)
      case Some(m) => Some(m)
      case None => Exec(s, from + 1)
  }

  /** Where the pattern does not match, `exec` moves on to the next position. */
  lemma ExecMovesOn(s: string, from: nat)
    requires from < |s| && MatchAt(s, from).None?
    ensures Exec(s, from) == Exec(s, from + 1)
  {
  }

  /** `exec` finds the leftmost match: none starts between `from` and the one it returns. */
  lemma {:induction false} ExecLeftmost(s: string, from: nat, j: nat)
    requires from <= j
    requires Exec(s, from).None? || j < Exec(s, from).value.start
    decreases j - from
    ensures MatchAt(s, j).None?
  {
    if j < |s| {
      if MatchAt(s, from).None? {
        ExecMovesOn(s, from);
        if from < j {
          ExecLeftmost(s, from + 1, j);
        }
      }
    }
  }

  /** `exec` misses no match: wherever the pattern can match at or after `from`, it returns
      a match starting there or earlier. */
  lemma ExecFinds(s: string, from: nat, j: nat, m: Match)
    requires from <= j && IsMatch(s, j, m)
    ensures Exec(s, from).Some? && Exec(s, from).value.start <= j
  {
    MatchAtComplete(s, j, m);
    if Exec(s, from).None? || j < Exec(s, from).value.start {
      ExecLeftmost(s, from, j);
      assert false;
    }
  }

  /** The check `parsed.uid && parsed.data` applied to what `JSON.parse` returned; a parse
      failure (None), and `null` (whose property read throws inside the `try`), are skipped. */
  function Accept(parsed: Option<Value>): Option<Block> {
    match parsed
    case None => None
    case Some(v) =>
      var uid := Property(v, "uid");
      var data := Property(v, "data");
      if uid.Some? && Truthy(uid.value) && data.Some? && Truthy(data.value)
      then Some(Block(uid.value, data.value))
      else None
  }

  /** A parsed value is accepted exactly when it is an object whose `uid` and `data` are
      present and truthy, and the block holds those two values. */
  lemma AcceptRule(parsed: Option<Value>)
    ensures Accept(parsed).Some? <==>
      && parsed.Some? && parsed.value.JObj?
      && "uid" in parsed.value.fields && Truthy(parsed.value.fields["uid"])
      && "data" in parsed.value.fields && Truthy(parsed.value.fields["data"])
    ensures Accept(parsed).Some? ==>
      Accept(parsed).value == Block(parsed.value.fields["uid"], parsed.value.fields["data"])
  {
  }

  /** The placeholder `__UICP_BLOCK_i__`. */
  function Placeholder(i: nat): string {
    "__UICP_BLOCK_" + NatToString(i) + "__"
  }

  /** Every match of the global pattern from `lastIndex == from`, in the order `exec`
      returns them. */
  function AllMatches(s: string, from: nat): (r: seq<Match>)
    decreases |s| - from
  {
    match Exec(s, from)
    case None => []
    case Some(m) => [m] + AllMatches(s, m.end)
  }

  /** Each match starts after the previous one has ended. */
  predicate Ordered(ms: seq<Match>) {
    forall i :: 0 <= i < |ms| - 1 ==> ms[i].end <= ms[i + 1].start
  }

  lemma OrderedCons(m: Match, rest: seq<Match>)
    requires Ordered(rest) && (rest == [] || m.end <= rest[0].start)
    ensures Ordered([m] + rest)
  {
    var ms := [m] + rest;
    forall i | 0 <= i < |ms| - 1 ensures ms[i].end <= ms[i + 1].start {
      assert ms[i + 1] == rest[i];
      if i > 0 { assert ms[i] == rest[i - 1]; }
    }
  }

  /** The matches are what `MatchAt` finds at their starts, they lie at or after `from`, and
      each starts after the previous one has ended. */
  lemma {:induction false} AllMatchesOrdered(s: string, from: nat)
    decreases |s| - from
    ensures forall x :: x in AllMatches(s, from) ==> from <= x.start && MatchAt(s, x.start) == Some(x)
    ensures Ordered(AllMatches(s, from))
  {
    match Exec(s, from)
    case None =>
    case Some(m) =>
      AllMatchesOrdered(s, m.end);
      AllMatchesStep(s, from, m);
      var rest := AllMatches(s, m.end);
      assert rest != [] ==> rest[0] in rest;
      OrderedCons(m, rest);
  }

  /** An accepted block together with the matched text `match[0]` it came from. */
  datatype Hit = Hit(block: Block, source: string)

  /** The hit a match yields, if its trimmed body parses and passes the check. */
  function Candidate(s: string, parse: string -> Option<Value>, m: Match): Option<Hit> {
    if m.bodyStart <= m.bodyEnd <= m.end <= |s| && m.start <= m.end then
      match Accept(parse(Trim(s[m.bodyStart..m.bodyEnd])))
      case None => None
      case Some(b) => Some(Hit(b, s[m.start..m.end]))
    else None
  }

  /** The hits of a sequence of matches, in the same order. */
  function Hits(s: string, parse: string -> Option<Value>, ms: seq<Match>): seq<Hit> {
    if ms == [] then []
    else
      var here := Candidate(s, parse, ms[0]);
      (if here.Some? then [here.value] else []) + Hits(s, parse, ms[1..])
  }

  /** The blocks of a sequence of hits. */
  function BlocksOf(hits: seq<Hit>): (r: seq<Block>)
    ensures |r| == |hits| && forall i :: 0 <= i < |hits| ==> r[i] == hits[i].block
  {
    seq(|hits|, i requires 0 <= i < |hits| => hits[i].block)
  }

  /** The text after the hits have been substituted one after the other: the `i`-th hit's
      source text, wherever it first occurs in the text at that point, becomes placeholder `i`. */
  function Substitute(text: string, hits: seq<Hit>): string {
    if hits == [] then text
    else
      var n := |hits| - 1;
      ReplaceFirst(Substitute(text, hits[..n]), hits[n].source, Placeholder(n))
  }

  /** The streaming cut: at the first surviving opening fence, keep only what precedes it,
      with trailing whitespace removed. */
  function Truncate(text: string): (r: string)
    ensures |r| <= |text| && r == text[..|r|]
    ensures !Contains(r, Open)
    ensures !Contains(text, Open) ==> r == text
  {
    ContainsFind(text, Open);
    match FindFrom(text, Open, 0)
    case None => text
    case Some(i) =>
      var r := TrimEnd(text[..i]);
      FindFromSpec(text, Open, 0);
      assert !Contains(text[..i], Open) by {
        forall j: nat | j + |Open| <= i ensures !StartsAt(text[..i], j, Open) {
          StartsAtPrefix(text[..i], text[i..], j, Open);
          assert text[..i] + text[i..] == text;
        }
      }
      NotContainsPrefix(text[..i], |r|, Open);
      r
  }

  /** `extractUICPBlocks(content)` with `JSON.parse` as `parse`: the blocks are the accepted
      matches in source order, the text has each accepted match replaced by its placeholder
      and is then cut at any opening fence that survives. */
  function Extract(content: string, parse: string -> Option<Value>): (r: Extraction)
    ensures !Contains(r.text, Open)
  {
    var hits := Hits(content, parse, AllMatches(content, 0));
    Extraction(BlocksOf(hits), Truncate(Substitute(content, hits)))
  }

  /** One step of `exec`: the matches from `from` are the one `exec` finds and those after it. */
  lemma AllMatchesStep(s: string, from: nat, m: Match)
    requires Exec(s, from) == Some(m)
    ensures AllMatches(s, from) == [m] + AllMatches(s, m.end)
    ensures from < m.end
  {
  }

  /** Hits of a sequence with one more match in front. */
  lemma HitsCons(s: string, parse: string -> Option<Value>, m: Match, rest: seq<Match>)
    ensures Hits(s, parse, [m] + rest) ==
      (if Candidate(s, parse, m).Some? then [Candidate(s, parse, m).value] else []) + Hits(s, parse, rest)
  {
    assert ([m] + rest)[1..] == rest;
  }

  /** Substituting one more hit replaces its source text in the text substituted so far. */
  lemma SubstituteSnoc(text: string, hits: seq<Hit>, h: Hit)
    ensures Substitute(text, hits + [h]) == ReplaceFirst(Substitute(text, hits), h.source, Placeholder(|hits|))
  {
    assert (hits + [h])[..|hits|] == hits;
  }

  /** The blocks of one more hit. */
  lemma BlocksOfSnoc(hits: seq<Hit>, h: Hit)
    ensures BlocksOf(hits + [h]) == BlocksOf(hits) + [h.block]
  {
    var l, r := BlocksOf(hits + [h]), BlocksOf(hits) + [h.block];
    assert |l| == |r|;
    forall i | 0 <= i < |l| ensures l[i] == r[i] {
      if i < |hits| { assert (hits + [h])[i] == hits[i]; }
    }
  }

  /** One turn of the loop: the hits from `from` are the hit of the match `exec` returns
      there (if its block is accepted) followed by the hits from the match's end. */
  lemma ExtractStep(content: string, parse: string -> Option<Value>, from: nat, m: Match)
    requires Exec(content, from) == Some(m)
    ensures from < m.end <= |content|
    ensures m.start <= m.bodyStart <= m.bodyEnd <= m.end
    ensures var b := Accept(parse(Trim(content[m.bodyStart..m.bodyEnd])));
      var here := if b.Some? then [Hit(b.value, content[m.start..m.end])] else [];
      Hits(content, parse, AllMatches(content, from)) ==
        here + Hits(content, parse, AllMatches(content, m.end))
  {
    AllMatchesStep(content, from, m);
    assert Spans(content, m.start, m);
    HitsCons(content, parse, m, AllMatches(content, m.end));
  }

  /** `extractUICPBlocks` as the source runs it: the `while` loop over `exec`, pushing each
      accepted block and replacing its match in the text, then the truncation. */
  method ExtractBlocks(content: string, parse: string -> Option<Value>) returns (r: Extraction)
    ensures r == Extract(content, parse)
  {
    var blocks: seq<Block> := [];
    var text := content;
    var lastIndex: nat := 0;
    ghost var hits: seq<Hit> := [];
    var found := Exec(content, lastIndex);
    while found.Some?
      invariant lastIndex <= |content|
      invariant found == Exec(content, lastIndex)
      invariant hits + Hits(content, parse, AllMatches(content, lastIndex)) ==
        Hits(content, parse, AllMatches(content, 0))
      invariant blocks == BlocksOf(hits)
      invariant text == Substitute(content, hits)
      decreases |content| - lastIndex
    {
      var m := found.value;
      ExtractStep(content, parse, lastIndex, m);
      var block := Accept(parse(Trim(content[m.bodyStart..m.bodyEnd])));
      if block.Some? {
        var h := Hit(block.value, content[m.start..m.end]);
        ConcatAssoc(hits, [h], Hits(content, parse, AllMatches(content, m.end)));
        SubstituteSnoc(content, hits, h);
        BlocksOfSnoc(hits, h);
        text := ReplaceFirst(text, content[m.start..m.end], Placeholder(|blocks|));
        blocks := blocks + [block.value];
        hits := hits + [h];
      } else {
        assert [] + Hits(content, parse, AllMatches(content, m.end)) ==
          Hits(content, parse, AllMatches(content, m.end));
      }
      lastIndex := m.end;
      found := Exec(content, lastIndex);
    }
    assert AllMatches(content, lastIndex) == [];
    assert hits == Hits(content, parse, AllMatches(content, 0));
    r := Extraction(blocks, Truncate(text));
  }

  /** A text without the opening fence is returned unchanged and yields no block. */
  lemma ExtractWithoutFence(content: string, parse: string -> Option<Value>)
    requires !Contains(content, Open)
    ensures Extract(content, parse) == Extraction([], content)
  {
    ExecNoOpen(content, 0);
  }

  // ---------------------------------------------------------------------------
  // A text holding a single closed block

  /** `s` is `pre`, a block with body `body`, and `post`, laid end to end (stated part by
      part; `LayoutOfConcat` gives it for the concatenation). */
  predicate Layout(s: string, pre: string, body: string, post: string) {
    var k, e := |pre|, |pre| + 8 + |body|;
    && |s| == e + 3 + |post|
    && s[..k] == pre
    && s[k..k + 8] == Open + "\n"
    && s[k + 8..e] == body
    && s[e..e + 3] == Fence
    && s[e + 3..] == post
  }

  lemma LayoutOfConcat(pre: string, body: string, post: string)
    ensures Layout(pre + Open + "\n" + body + Fence + post, pre, body, post)
  {
    var s := pre + Open + "\n" + body + Fence + post;
    var k, e := |pre|, |pre| + 8 + |body|;
    assert s == pre + (Open + "\n") + body + Fence + post;
    assert s[..k] == pre;
    assert s[k..k + 8] == Open + "\n";
    assert s[k + 8..e] == body;
    assert s[e..e + 3] == Fence;
    assert s[e + 3..] == post;
  }

  /** `body` is what the pattern captures when written right after `"```uicp\n"`: it does
      not start with whitespace (which would join the newline run), holds no closing
      fence and does not end in a backtick (which would move the closing fence). */
  predicate PlainBody(body: string) {
    && (body == [] || !IsWhitespace(body[0]))
    && !Contains(body, Fence)
    && (body == [] || body[|body| - 1] != '`')
  }

  /** The opening fence does not overlap itself. */
  lemma OpenDoesNotOverlap(s: string, j: nat, k: nat)
    requires j < k < j + |Open|
    requires StartsAt(s, k, Open)
    ensures !StartsAt(s, j, Open)
  {
    var d := k - j;
    var x := if d < 3 then 3 - d else 0;
    assert s[k + x] == Open[x];
    assert Open[x] != Open[d + x];
    assert s[j..j + |Open|][d + x] != Open[d + x] || j + |Open| > |s|;
  }

  /** No opening fence spans a middle part none of whose characters occur in the fence. */
  lemma NoOpenAcross(a: string, b: string, c: string)
    requires !Contains(a, Open) && !Contains(c, Open)
    requires b != [] && forall i :: 0 <= i < |b| ==> b[i] !in Open
    ensures !Contains(a + b + c, Open)
  {
    var s := a + b + c;
    assert s == a + (b + c);
    forall j: nat | j + |Open| <= |s| ensures !StartsAt(s, j, Open) {
      if j + |Open| <= |a| {
        StartsAtPrefix(a, b + c, j, Open);
      } else if j >= |a| + |b| {
        StartsAtShift(a + b, c, j - |a| - |b|, Open);
      } else {
        var t := if j < |a| then |a| else j;
        assert s[t] == b[t - |a|];
        assert s[j..j + |Open|][t - j] == s[t];
      }
    }
  }

  /** No character of a placeholder occurs in the opening fence. */
  lemma PlaceholderAvoidsOpen(n: nat)
    ensures Placeholder(n) != []
    ensures forall i :: 0 <= i < |Placeholder(n)| ==> Placeholder(n)[i] !in Open
  {
    var p := Placeholder(n);
    var ds := NatToString(n);
    forall i | 0 <= i < |p| ensures p[i] !in Open {
      if 13 <= i < 13 + |ds| {
        assert p[i] == ds[i - 13];
      }
    }
  }

  /** Text around a placeholder that holds no opening fence survives the truncation. */
  lemma PlaceholderKeeps(pre: string, n: nat, post: string)
    requires !Contains(pre, Open) && !Contains(post, Open)
    ensures Truncate(pre + Placeholder(n) + post) == pre + Placeholder(n) + post
  {
    PlaceholderAvoidsOpen(n);
    NoOpenAcross(pre, Placeholder(n), post);
  }

  /** The pattern at an opening fence followed by a newline and then by a character that
      is not whitespace: the body starts right after the newline. */
  lemma MatchAtNewline(s: string, k: nat, e: nat)
    requires StartsAt(s, k, Open) && k + 8 < |s| && s[k + 7] == '\n' && !IsWhitespace(s[k + 8])
    requires FindFrom(s, Fence, k + 8) == Some(e)
    ensures MatchAt(s, k) == Some(Match(k, k + 8, e, e + 3))
  {
    assert RunEnd(s, k + 8) == k + 8;
    assert RunEnd(s, k + 7) == k + 8;
    assert LastNewline(s, k + 7, k + 8) == Some(k + 7);
  }

  /** `exec` passes over positions where no opening fence starts. */
  lemma {:induction false} ExecSkips(s: string, from: nat, p: nat)
    requires from <= p
    requires forall j :: from <= j < p ==> !StartsAt(s, j, Open)
    decreases p - from
    ensures Exec(s, from) == Exec(s, p)
  {
    if from < p {
      ExecSkips(s, from + 1, p);
      assert !StartsAt(s, from, Open);
    }
  }

  /** Without an opening fence from `from` on, `exec` finds nothing. */
  lemma ExecNoOpen(s: string, from: nat)
    requires forall j :: from <= j < |s| ==> !StartsAt(s, j, Open)
    ensures Exec(s, from) == None
  {
    if from <= |s| {
      ExecSkips(s, from, |s|);
    }
  }

  /** In a layout, the opening fence occurs once: after `pre`. */
  lemma LayoutOpens(s: string, pre: string, body: string, post: string)
    requires Layout(s, pre, body, post)
    requires !Contains(pre, Open) && !Contains(post, Open)
    ensures StartsAt(s, |pre|, Open)
    ensures FindFrom(s, Open, 0) == Some(|pre|)
    ensures forall j :: |pre| + 11 + |body| <= j ==> !StartsAt(s, j, Open)
  {
    var k, e := |pre|, |pre| + 8 + |body|;
    assert StartsAt(s, k, Open) by {
      assert s[k..k + 7] == s[k..k + 8][..7];
    }
    assert s[0..k] == pre;
    forall j: nat | j < k ensures !StartsAt(s, j, Open) {
      if j + 7 <= k {
        StartsAtSlice(s, 0, pre, j, Open);
      } else {
        OpenDoesNotOverlap(s, j, k);
      }
    }
    FindFromFirst(s, Open, 0, k);
    assert s[e + 3..e + 3 + |post|] == post;
    forall j: nat | e + 3 <= j ensures !StartsAt(s, j, Open) {
      if j + 7 <= |s| {
        StartsAtSlice(s, e + 3, post, j - (e + 3), Open);
      }
    }
  }

  /** A plain body followed by a closing fence holds no closing fence of its own, not even
      one that would run into the fence after it. */
  lemma PlainBodyNoFence(s: string, lo: nat, body: string)
    requires lo + |body| <= |s| && s[lo..lo + |body|] == body && PlainBody(body)
    ensures forall j :: lo <= j < lo + |body| ==> !StartsAt(s, j, Fence)
  {
    var e := lo + |body|;
    forall j: nat | lo <= j < e ensures !StartsAt(s, j, Fence) {
      if j + 3 <= e {
        StartsAtSlice(s, lo, body, j - lo, Fence);
      } else if j + 3 <= |s| {
        assert s[e - 1] == s[lo..lo + |body|][|body| - 1] == body[|body| - 1] != '`';
        assert s[j..j + 3][e - 1 - j] == s[e - 1];
        assert Fence[e - 1 - j] == '`';
      }
    }
  }

  /** In a layout with a plain body, the opening fence is followed by exactly one
      whitespace character, the newline. */
  lemma LayoutNewline(s: string, pre: string, body: string, post: string)
    requires Layout(s, pre, body, post) && PlainBody(body)
    ensures var k := |pre|; s[k + 7] == '\n' && k + 8 < |s| && !IsWhitespace(s[k + 8])
  {
    var k, e := |pre|, |pre| + 8 + |body|;
    assert s[k + 7] == s[k..k + 8][7];
    if body != [] {
      assert s[k + 8] == s[k + 8..e][0];
    } else {
      assert s[k + 8] == s[e..e + 3][0];
    }
  }

  /** In a layout with a plain body, the first closing fence after the newline is the one
      that follows the body. */
  lemma LayoutCloses(s: string, pre: string, body: string, post: string)
    requires Layout(s, pre, body, post) && PlainBody(body)
    ensures FindFrom(s, Fence, |pre| + 8) == Some(|pre| + 8 + |body|)
  {
    var k, e := |pre|, |pre| + 8 + |body|;
    assert StartsAt(s, e, Fence);
    PlainBodyNoFence(s, k + 8, body);
    FindFromFirst(s, Fence, k + 8, e);
  }

  /** The one match of a text with a single opening fence at `k`, directly followed by a
      newline, a non-whitespace character and, later, a closing fence at `e`. */
  lemma SingleMatch(s: string, k: nat, e: nat)
    requires FindFrom(s, Open, 0) == Some(k)
    requires forall j :: e + 3 <= j ==> !StartsAt(s, j, Open)
    requires k + 8 < |s| && s[k + 7] == '\n' && !IsWhitespace(s[k + 8])
    requires FindFrom(s, Fence, k + 8) == Some(e)
    ensures AllMatches(s, 0) == [Match(k, k + 8, e, e + 3)]
  {
    MatchAtNewline(s, k, e);
    FindFromSpec(s, Open, 0);
    ExecSkips(s, 0, k);
    ExecNoOpen(s, e + 3);
    AllMatchesStep(s, 0, Match(k, k + 8, e, e + 3));
  }

  /** The one match of a layout: the block after `pre`, with `body` as its capture. */
  lemma LayoutMatches(s: string, pre: string, body: string, post: string)
    requires Layout(s, pre, body, post)
    requires !Contains(pre, Open) && !Contains(post, Open) && PlainBody(body)
    ensures var k, e := |pre|, |pre| + 8 + |body|;
      AllMatches(s, 0) == [Match(k, k + 8, e, e + 3)]
  {
    LayoutOpens(s, pre, body, post);
    LayoutNewline(s, pre, body, post);
    LayoutCloses(s, pre, body, post);
    SingleMatch(s, |pre|, |pre| + 8 + |body|);
  }

  /** The truncation cuts at the first opening fence. */
  lemma TruncateAt(text: string, k: nat)
    requires FindFrom(text, Open, 0) == Some(k)
    ensures Truncate(text) == TrimEnd(text[..k])
  {
  }

  /** A text whose only match is rejected keeps its text, cut at its first opening fence. */
  lemma ExtractRejected(s: string, parse: string -> Option<Value>, m: Match)
    requires AllMatches(s, 0) == [m] && Candidate(s, parse, m).None?
    ensures Extract(s, parse) == Extraction([], Truncate(s))
  {
    assert Hits(s, parse, [m]) == [];
  }

  /** A text whose only match is accepted has that block replaced by placeholder 0. */
  lemma ExtractAccepted(s: string, parse: string -> Option<Value>, m: Match, h: Hit)
    requires AllMatches(s, 0) == [m] && Candidate(s, parse, m) == Some(h)
    ensures Extract(s, parse) == Extraction([h.block], Truncate(Substitute(s, [h])))
  {
    HitsOne(s, parse, m, h);
    ExtractOf(s, parse, [h]);
    BlocksOne(h);
  }

  /** The hits of a single accepted match. */
  lemma HitsOne(s: string, parse: string -> Option<Value>, m: Match, h: Hit)
    requires Candidate(s, parse, m) == Some(h)
    ensures Hits(s, parse, [m]) == [h]
  {
    HitsCons(s, parse, m, []);
    assert [m] + [] == [m];
  }

  /** The blocks of a single hit. */
  lemma BlocksOne(h: Hit)
    ensures BlocksOf([h]) == [h.block]
  {
  }

  /** The extraction of a text, given its hits. */
  lemma ExtractOf(s: string, parse: string -> Option<Value>, hits: seq<Hit>)
    requires Hits(s, parse, AllMatches(s, 0)) == hits
    ensures Extract(s, parse) == Extraction(BlocksOf(hits), Truncate(Substitute(s, hits)))
  {
  }

  /** A match whose trimmed capture is rejected yields no hit. */
  lemma CandidateRejected(s: string, parse: string -> Option<Value>, m: Match, body: string)
    requires m.start <= m.bodyStart <= m.bodyEnd <= m.end <= |s|
    requires s[m.bodyStart..m.bodyEnd] == body && Accept(parse(Trim(body))).None?
    ensures Candidate(s, parse, m).None?
  {
  }

  /** A match whose trimmed capture is accepted yields its block and its text. */
  lemma CandidateAccepted(s: string, parse: string -> Option<Value>, m: Match, body: string,
                          b: Block)
    requires m.start <= m.bodyStart <= m.bodyEnd <= m.end <= |s|
    requires s[m.bodyStart..m.bodyEnd] == body && Accept(parse(Trim(body))) == Some(b)
    ensures Candidate(s, parse, m) == Some(Hit(b, s[m.start..m.end]))
  {
  }

  /** The first occurrence of a layout's block text is the block itself. */
  lemma LayoutBlockFirst(s: string, pre: string, body: string, post: string)
    requires Layout(s, pre, body, post)
    requires !Contains(pre, Open) && !Contains(post, Open)
    ensures var k, e := |pre|, |pre| + 8 + |body|;
      FindFrom(s, s[k..e + 3], 0) == Some(k)
  {
    var k, e := |pre|, |pre| + 8 + |body|;
    var blk := s[k..e + 3];
    LayoutOpens(s, pre, body, post);
    assert StartsAt(s, k, blk);
    assert blk[..7] == s[k..k + 7];
    FindFromSpec(s, Open, 0);
    forall j: nat | j < k ensures !StartsAt(s, j, blk) {
      if StartsAt(s, j, blk) {
        StartsAtLonger(s, j, Open, blk);
      }
    }
    FindFromFirst(s, blk, 0, k);
  }

  /** Substituting a single hit replaces the first occurrence of its source text. */
  lemma SubstituteOne(text: string, h: Hit)
    ensures Substitute(text, [h]) == ReplaceFirst(text, h.source, Placeholder(0))
  {
    assert [h][..0] == [];
  }

  /** Replacing the block of a layout by a placeholder. */
  lemma LayoutReplace(s: string, pre: string, body: string, post: string, b: Block)
    requires Layout(s, pre, body, post)
    requires !Contains(pre, Open) && !Contains(post, Open)
    ensures var k, e := |pre|, |pre| + 8 + |body|;
      Substitute(s, [Hit(b, s[k..e + 3])]) == pre + Placeholder(0) + post
  {
    var k, e := |pre|, |pre| + 8 + |body|;
    var src := s[k..e + 3];
    LayoutBlockFirst(s, pre, body, post);
    SubstituteOne(s, Hit(b, src));
    ReplaceAt(s, src, Placeholder(0), k);
    assert k + |src| == e + 3;
  }

  /** A closed block whose body does not parse, or parses without a truthy `uid` and `data`,
      stays in the text; the truncation then cuts at it, hiding it and all that follows. */
  lemma SingleBlockRejected(s: string, pre: string, body: string, post: string,
                            parse: string -> Option<Value>)
    requires Layout(s, pre, body, post)
    requires !Contains(pre, Open) && !Contains(post, Open) && PlainBody(body)
    requires Accept(parse(Trim(body))).None?
    ensures Extract(s, parse) == Extraction([], TrimEnd(pre))
  {
    var k, e := |pre|, |pre| + 8 + |body|;
    LayoutMatches(s, pre, body, post);
    CandidateRejected(s, parse, Match(k, k + 8, e, e + 3), body);
    ExtractRejected(s, parse, Match(k, k + 8, e, e + 3));
    LayoutOpens(s, pre, body, post);
    TruncateAt(s, k);
  }

  /** A text whose only match is accepted: the block is its only block, and the text is what
      substitution and truncation make of it. */
  lemma LoneAccepted(s: string, parse: string -> Option<Value>, m: Match, body: string,
                     h: Hit, u: string, t: string)
    requires AllMatches(s, 0) == [m]
    requires m.start <= m.bodyStart <= m.bodyEnd <= m.end <= |s|
    requires s[m.bodyStart..m.bodyEnd] == body && Accept(parse(Trim(body))) == Some(h.block)
    requires h.source == s[m.start..m.end]
    requires Substitute(s, [h]) == u && Truncate(u) == t
    ensures Extract(s, parse) == Extraction([h.block], t)
  {
    CandidateAccepted(s, parse, m, body, h.block);
    ExtractAccepted(s, parse, m, h);
  }

  /** The facts about a layout, with its block at `[k, e + 3)`, that an accepted block needs:
      its match is the only one, and substitution and truncation leave `pre`, the placeholder
      and `post`. */
  lemma LayoutAccepted(s: string, pre: string, body: string, post: string, b: Block,
                       k: nat, e: nat)
    requires Layout(s, pre, body, post) && k == |pre| && e == |pre| + 8 + |body|
    requires !Contains(pre, Open) && !Contains(post, Open) && PlainBody(body)
    ensures AllMatches(s, 0) == [Match(k, k + 8, e, e + 3)]
    ensures s[k + 8..e] == body
    ensures Substitute(s, [Hit(b, s[k..e + 3])]) == pre + Placeholder(0) + post
    ensures Truncate(pre + Placeholder(0) + post) == pre + Placeholder(0) + post
  {
    LayoutMatches(s, pre, body, post);
    LayoutReplace(s, pre, body, post, b);
    PlaceholderKeeps(pre, 0, post);
  }

  /** A closed block that is accepted becomes block 0 and is replaced by its placeholder. */
  lemma SingleBlockAccepted(s: string, pre: string, body: string, post: string,
                            parse: string -> Option<Value>, b: Block)
    requires Layout(s, pre, body, post)
    requires !Contains(pre, Open) && !Contains(post, Open) && PlainBody(body)
    requires Accept(parse(Trim(body))) == Some(b)
    ensures Extract(s, parse) == Extraction([b], pre + Placeholder(0) + post)
  {
    var k, e := |pre|, |pre| + 8 + |body|;
    var h, t := Hit(b, s[k..e + 3]), pre + Placeholder(0) + post;
    LayoutAccepted(s, pre, body, post, b, k, e);
    LoneAccepted(s, parse, Match(k, k + 8, e, e + 3), body, h, t, t);
  }


  // ---------------------------------------------------------------------------
  // A text whose last block is still open

  /** No opening fence starts in a stretch `t` that holds none and is directly followed by
      an opening fence (one starting inside `t` would overlap that one). */
  lemma OpenFirstAfter(s: string, lo: nat, t: string)
    requires lo + |t| <= |s| && s[lo..lo + |t|] == t && !Contains(t, Open)
    requires StartsAt(s, lo + |t|, Open)
    ensures forall j :: lo <= j < lo + |t| ==> !StartsAt(s, j, Open)
  {
    var k := lo + |t|;
    forall j: nat | lo <= j < k ensures !StartsAt(s, j, Open) {
      if j + 7 <= k {
        StartsAtSlice(s, lo, t, j - lo, Open);
      } else {
        OpenDoesNotOverlap(s, j, k);
      }
    }
  }

  /** In `pre`, an opening fence and `rest`, with no opening fence in `pre`: the first
      opening fence is the one after `pre`. */
  lemma UnclosedOpens(s: string, pre: string, rest: string)
    requires s == pre + Open + rest && !Contains(pre, Open)
    ensures FindFrom(s, Open, 0) == Some(|pre|)
    ensures forall j :: 0 <= j < |pre| ==> !StartsAt(s, j, Open)
    ensures s[..|pre|] == pre
  {
    var k := |pre|;
    assert s[k..k + 7] == Open;
    assert s[0..k] == pre;
    OpenFirstAfter(s, 0, pre);
    FindFromFirst(s, Open, 0, k);
  }

  /** Without a closing fence in `rest`, none follows the opening fence. */
  lemma UnclosedRest(s: string, pre: string, rest: string)
    requires s == pre + Open + rest && !Contains(rest, Fence)
    ensures forall j :: |pre| + |Open| <= j ==> !StartsAt(s, j, Fence)
  {
    var lo := |pre| + |Open|;
    assert s[lo..lo + |rest|] == rest;
    forall j: nat | lo <= j ensures !StartsAt(s, j, Fence) {
      if j + 3 <= |s| {
        StartsAtSlice(s, lo, rest, j - lo, Fence);
      }
    }
  }

  /** With no closing fence after position `k + 7`, the pattern matches nowhere from `k`. */
  lemma NoMatchFrom(s: string, k: nat)
    requires forall j :: k + |Open| <= j ==> !StartsAt(s, j, Fence)
    ensures Exec(s, k).None?
  {
    if Exec(s, k).Some? {
      var m := Exec(s, k).value;
      MatchAtShape(s, m.start);
      assert false;
    }
  }

  /** A block that has been opened but not yet closed: nothing matches, so no block is
      taken, and the truncation leaves only what precedes the opening fence. */
  lemma UnclosedExtract(s: string, pre: string, rest: string, parse: string -> Option<Value>)
    requires s == pre + Open + rest
    requires !Contains(pre, Open) && !Contains(rest, Fence)
    ensures AllMatches(s, 0) == []
    ensures Extract(s, parse) == Extraction([], TrimEnd(pre))
  {
    var k := |pre|;
    UnclosedOpens(s, pre, rest);
    UnclosedRest(s, pre, rest);
    ExecSkips(s, 0, k);
    NoMatchFrom(s, k);
    assert Hits(s, parse, []) == [];
    TruncateAt(s, k);
  }

  // ---------------------------------------------------------------------------
  // A rejected block followed by an accepted one

  /** `exec` from `from` finds a block at `k` opened by a single newline, when no opening
      fence starts between `from` and `k`. */
  lemma ExecFindsAt(s: string, from: nat, k: nat, e: nat)
    requires from <= k && forall j :: from <= j < k ==> !StartsAt(s, j, Open)
    requires StartsAt(s, k, Open) && k + 8 < |s| && s[k + 7] == '\n' && !IsWhitespace(s[k + 8])
    requires FindFrom(s, Fence, k + 8) == Some(e)
    ensures Exec(s, from) == Some(Match(k, k + 8, e, e + 3))
  {
    MatchAtNewline(s, k, e);
    ExecSkips(s, from, k);
  }

  /** No opening fence starts after the block of a layout whose `post` holds none. */
  lemma LayoutPost(s: string, pre: string, body: string, post: string, e: nat)
    requires Layout(s, pre, body, post) && !Contains(post, Open) && e == |pre| + 8 + |body|
    ensures forall j :: e + 3 <= j < |s| ==> !StartsAt(s, j, Open)
  {
    assert s[e + 3..e + 3 + |post|] == post;
    forall j: nat | e + 3 <= j ensures !StartsAt(s, j, Open) {
      if j + 7 <= |s| {
        StartsAtSlice(s, e + 3, post, j - (e + 3), Open);
      }
    }
  }

  /** `s` is `pre`, a block with body `body1`, `mid`, a block with body `body2`, and `post`,
      laid end to end (stated part by part, as `Layout` is). */
  predicate TwoLayout(s: string, pre: string, body1: string, mid: string, body2: string, post: string) {
    var k1, e1 := |pre|, |pre| + 8 + |body1|;
    var k2, e2 := e1 + 3 + |mid|, e1 + 11 + |mid| + |body2|;
    && |s| == e2 + 3 + |post|
    && s[..k1] == pre
    && s[k1..k1 + 8] == Open + "\n"
    && s[k1 + 8..e1] == body1
    && s[e1..e1 + 3] == Fence
    && s[e1 + 3..k2] == mid
    && s[k2..k2 + 8] == Open + "\n"
    && s[k2 + 8..e2] == body2
    && s[e2..e2 + 3] == Fence
    && s[e2 + 3..] == post
  }

  /** A text of two blocks is a layout around its first block ... */
  lemma TwoLayoutFirst(s: string, pre: string, body1: string, mid: string, body2: string,
                       post: string, e1: nat)
    requires TwoLayout(s, pre, body1, mid, body2, post) && e1 == |pre| + 8 + |body1|
    ensures Layout(s, pre, body1, s[e1 + 3..])
  {
  }

  /** ... and around its second block, with everything before that block as `pre`. */
  lemma TwoLayoutSecond(s: string, pre: string, body1: string, mid: string, body2: string,
                        post: string, k2: nat)
    requires TwoLayout(s, pre, body1, mid, body2, post) && k2 == |pre| + 11 + |body1| + |mid|
    ensures k2 <= |s| && Layout(s, s[..k2], body2, post)
  {
  }

  /** The block of a layout, opened at `k` by a single newline and closed at `e`. */
  predicate Opened(s: string, k: nat, e: nat) {
    && StartsAt(s, k, Open) && k + 8 < |s| && s[k + 7] == '\n' && !IsWhitespace(s[k + 8])
    && FindFrom(s, Fence, k + 8) == Some(e)
  }

  /** The matches of a text with blocks opened at `k1` and `k2`, no opening fence before
      the first, between the end of the first and the second, or after the second. */
  lemma TwoOpened(s: string, k1: nat, e1: nat, k2: nat, e2: nat)
    requires Opened(s, k1, e1) && Opened(s, k2, e2) && e1 + 3 <= k2
    requires forall j :: 0 <= j < k1 ==> !StartsAt(s, j, Open)
    requires forall j :: e1 + 3 <= j < k2 ==> !StartsAt(s, j, Open)
    requires forall j :: e2 + 3 <= j < |s| ==> !StartsAt(s, j, Open)
    ensures AllMatches(s, 0) == [Match(k1, k1 + 8, e1, e1 + 3), Match(k2, k2 + 8, e2, e2 + 3)]
  {
    var m1, m2 := Match(k1, k1 + 8, e1, e1 + 3), Match(k2, k2 + 8, e2, e2 + 3);
    var b := m1.end;
    LastOpened(s, b, k2, e2);
    FirstOpened(s, k1, e1, m1, [m2]);
    Pair(m1, m2);
    assert AllMatches(s, 0) == [m1, m2];
  }

  /** The matches from `from` when the only opening fence from there on is at `k`. */
  lemma LastOpened(s: string, from: nat, k: nat, e: nat)
    requires Opened(s, k, e) && from <= k
    requires forall j :: from <= j < k ==> !StartsAt(s, j, Open)
    requires forall j :: e + 3 <= j < |s| ==> !StartsAt(s, j, Open)
    ensures AllMatches(s, from) == [Match(k, k + 8, e, e + 3)]
  {
    ExecFindsAt(s, from, k, e);
    ExecNoOpen(s, e + 3);
    AllMatchesOne(s, from, Match(k, k + 8, e, e + 3), e + 3);
  }

  /** The matches of a text whose first opening fence is at `k`: that block, then the
      matches after it, which start at `b`. */
  lemma FirstOpened(s: string, k: nat, e: nat, m: Match, rest: seq<Match>)
    requires Opened(s, k, e) && m == Match(k, k + 8, e, e + 3)
    requires forall j :: 0 <= j < k ==> !StartsAt(s, j, Open)
    requires AllMatches(s, m.end) == rest
    ensures AllMatches(s, 0) == [m] + rest
  {
    ExecFindsAt(s, 0, k, e);
    AllMatchesStep(s, 0, m);
  }

  /** The matches when `exec` finds one and then none. */
  lemma AllMatchesOne(s: string, from: nat, m: Match, b: nat)
    requires m.end == b && Exec(s, from) == Some(m) && Exec(s, b).None?
    ensures AllMatches(s, from) == [m]
  {
    AllMatchesStep(s, from, m);
    assert AllMatches(s, b) == [];
  }

  lemma Pair<T>(x: T, y: T)
    ensures [x] + [y] == [x, y]
  {
  }

  /** The block of a layout with a plain body is opened by a single newline and closed by
      the fence that follows the body. */
  lemma LayoutOpened(s: string, pre: string, body: string, post: string, k: nat, e: nat)
    requires Layout(s, pre, body, post) && PlainBody(body)
    requires k == |pre| && e == |pre| + 8 + |body|
    ensures Opened(s, k, e)
  {
    assert StartsAt(s, k, Open) by {
      assert s[k..k + 7] == s[k..k + 8][..7];
    }
    LayoutNewline(s, pre, body, post);
    LayoutCloses(s, pre, body, post);
  }

  /** Both blocks of a text of two blocks with plain bodies are opened by a single newline
      and closed by the fence after their body. */
  lemma TwoLayoutOpened(s: string, pre: string, body1: string, mid: string, body2: string,
                        post: string, k1: nat, e1: nat, k2: nat, e2: nat)
    requires TwoLayout(s, pre, body1, mid, body2, post) && PlainBody(body1) && PlainBody(body2)
    requires k1 == |pre| && e1 == k1 + 8 + |body1| && k2 == e1 + 3 + |mid| && e2 == k2 + 8 + |body2|
    ensures Opened(s, k1, e1) && Opened(s, k2, e2)
  {
    TwoLayoutFirst(s, pre, body1, mid, body2, post, e1);
    TwoLayoutSecond(s, pre, body1, mid, body2, post, k2);
    LayoutOpened(s, pre, body1, s[e1 + 3..], k1, e1);
    LayoutOpened(s, s[..k2], body2, post, k2, e2);
  }

  /** In a text of two blocks, no opening fence starts in `pre`, `mid` or `post`. */
  lemma TwoLayoutGaps(s: string, pre: string, body1: string, mid: string, body2: string,
                      post: string, k1: nat, e1: nat, k2: nat, e2: nat)
    requires TwoLayout(s, pre, body1, mid, body2, post)
    requires !Contains(pre, Open) && !Contains(mid, Open) && !Contains(post, Open)
    requires k1 == |pre| && e1 == k1 + 8 + |body1| && k2 == e1 + 3 + |mid| && e2 == k2 + 8 + |body2|
    ensures forall j :: 0 <= j < k1 ==> !StartsAt(s, j, Open)
    ensures forall j :: e1 + 3 <= j < k2 ==> !StartsAt(s, j, Open)
    ensures forall j :: e2 + 3 <= j < |s| ==> !StartsAt(s, j, Open)
  {
    TwoLayoutSecond(s, pre, body1, mid, body2, post, k2);
    assert StartsAt(s, k1, Open) by {
      assert s[k1..k1 + 7] == s[k1..k1 + 8][..7];
    }
    assert StartsAt(s, k2, Open) by {
      assert s[k2..k2 + 7] == s[k2..k2 + 8][..7];
    }
    assert s[0..k1] == pre;
    OpenFirstAfter(s, 0, pre);
    OpenFirstAfter(s, e1 + 3, mid);
    LayoutPost(s, s[..k2], body2, post, e2);
  }

  /** The two matches of a text of two blocks with plain bodies, around and between which
      no opening fence occurs. */
  lemma TwoLayoutMatches(s: string, pre: string, body1: string, mid: string, body2: string,
                         post: string, k1: nat, e1: nat, k2: nat, e2: nat)
    requires TwoLayout(s, pre, body1, mid, body2, post)
    requires !Contains(pre, Open) && !Contains(mid, Open) && !Contains(post, Open)
    requires PlainBody(body1) && PlainBody(body2)
    requires k1 == |pre| && e1 == k1 + 8 + |body1| && k2 == e1 + 3 + |mid| && e2 == k2 + 8 + |body2|
    ensures AllMatches(s, 0) == [Match(k1, k1 + 8, e1, e1 + 3), Match(k2, k2 + 8, e2, e2 + 3)]
  {
    TwoLayoutOpened(s, pre, body1, mid, body2, post, k1, e1, k2, e2);
    TwoLayoutGaps(s, pre, body1, mid, body2, post, k1, e1, k2, e2);
    TwoOpened(s, k1, e1, k2, e2);
  }

  /** The text of the second block of a text of two blocks. */
  lemma TwoLayoutSource(s: string, pre: string, body1: string, mid: string, body2: string,
                        post: string, k2: nat, e2: nat)
    requires TwoLayout(s, pre, body1, mid, body2, post)
    requires k2 == |pre| + 11 + |body1| + |mid| && e2 == k2 + 8 + |body2|
    ensures e2 + 3 <= |s| && s[k2..e2 + 3] == Open + "\n" + body2 + Fence
    ensures StartsAt(s, k2, s[k2..e2 + 3])
  {
    assert s[k2..e2 + 3] == s[k2..k2 + 8] + s[k2 + 8..e2] + s[e2..e2 + 3];
  }

  /** The parts of a text of two blocks, at the positions of the blocks. */
  lemma TwoLayoutParts(s: string, pre: string, body1: string, mid: string, body2: string,
                       post: string, k1: nat, e1: nat, k2: nat, e2: nat)
    requires TwoLayout(s, pre, body1, mid, body2, post)
    requires k1 == |pre| && e1 == k1 + 8 + |body1| && k2 == e1 + 3 + |mid| && e2 == k2 + 8 + |body2|
    ensures e2 + 3 <= |s| && s[..k1] == pre && s[k1 + 8..e1] == body1 && s[k2 + 8..e2] == body2
  {
  }

  /** The hits of a rejected match followed by an accepted one. */
  lemma HitsSecond(s: string, parse: string -> Option<Value>, m1: Match, m2: Match, h: Hit)
    requires Candidate(s, parse, m1).None? && Candidate(s, parse, m2) == Some(h)
    ensures Hits(s, parse, [m1, m2]) == [h]
  {
    HitsCons(s, parse, m1, [m2]);
    assert [m1] + [m2] == [m1, m2];
    HitsOne(s, parse, m2, h);
  }

  /** The first occurrence of a block's text `src` comes after the opening fence at `k`, the
      first of the text, when the block at `k` has a different body: `src` starts with an
      opening fence, which does not overlap the one at `k`, and by `CopyAt` a copy of `src`
      at `k` would have the body of the block at `k`. */
  lemma FirstCopyAfter(s: string, k: nat, e: nat, body1: string, body2: string, src: string, i: nat)
    requires FindFrom(s, Open, 0) == Some(k)
    requires k + 8 <= e && FindFrom(s, Fence, k + 8) == Some(e) && s[k + 8..e] == body1
    requires src == Open + "\n" + body2 + Fence && PlainBody(body2) && body1 != body2
    requires FindFrom(s, src, 0) == Some(i)
    ensures k + |Open| <= i
  {
    assert src[..7] == Open;
    StartsAtLonger(s, i, Open, src);
    FindFromSpec(s, Open, 0);
    if i < k + |Open| {
      if k < i {
        OpenDoesNotOverlap(s, k, i);
      } else {
        CopyAt(s, k, e, body1, body2, src);
      }
      assert false;
    }
  }

  /** A copy of a block's text `src` at `k`, where the first closing fence after the opening
      line is at `e`, has its body as the text between. */
  lemma CopyAt(s: string, k: nat, e: nat, body1: string, body2: string, src: string)
    requires k + 8 <= e && FindFrom(s, Fence, k + 8) == Some(e) && s[k + 8..e] == body1
    requires src == Open + "\n" + body2 + Fence && PlainBody(body2)
    requires StartsAt(s, k, src)
    ensures body1 == body2
  {
    var c := k + 8 + |body2|;
    CopyParts(s, k, body2, src);
    PlainBodyNoFence(s, k + 8, body2);
    FindFromFirst(s, Fence, k + 8, c);
  }

  /** Where a block's text `src` occurs at `k`, its body follows the opening line and a
      closing fence follows the body. */
  lemma CopyParts(s: string, k: nat, body: string, src: string)
    requires src == Open + "\n" + body + Fence && StartsAt(s, k, src)
    ensures k + 8 + |body| + 3 <= |s| && s[k + 8..k + 8 + |body|] == body
    ensures StartsAt(s, k + 8 + |body|, Fence)
  {
    var c := k + 8 + |body|;
    var head := Open + "\n";
    assert |head| == 8 && src == head + body + Fence;
    assert src[8..c - k] == body && src[c - k..] == Fence;
    assert |src| == c + 3 - k && s[k..c + 3] == src;
    forall i | 0 <= i < |body| ensures s[k + 8 + i] == body[i] {
      assert s[k..c + 3][8 + i] == s[k + 8 + i];
      assert src[8..c - k][i] == src[8 + i];
    }
    assert s[k + 8..c] == body;
    forall i | 0 <= i < 3 ensures s[c + i] == Fence[i] {
      assert s[k..c + 3][c - k + i] == s[c + i];
      assert src[c - k..][i] == src[c - k + i];
    }
    assert s[c..c + 3] == Fence;
  }

  /** Two texts that agree up to `i` have the same occurrences ending by `i`. */
  lemma AgreeUpTo(s: string, r: string, i: nat, j: nat, pat: string)
    requires i <= |s| && i <= |r| && r[..i] == s[..i] && j + |pat| <= i
    ensures StartsAt(r, j, pat) <==> StartsAt(s, j, pat)
    ensures r[..j] == s[..j]
  {
    assert r[j..j + |pat|] == r[..i][j..j + |pat|];
    assert s[j..j + |pat|] == s[..i][j..j + |pat|];
    assert r[..j] == r[..i][..j];
    assert s[..j] == s[..i][..j];
  }

  /** A text that agrees with `s` up to `i`, past the first opening fence of `s`, is cut
      where `s` is. */
  lemma TruncateBefore(s: string, k: nat, i: nat, r: string)
    requires FindFrom(s, Open, 0) == Some(k) && k + |Open| <= i <= |s|
    requires i <= |r| && r[..i] == s[..i]
    ensures Truncate(r) == TrimEnd(s[..k])
  {
    FirstOpenAgrees(s, k, i, r);
    TruncateAt(r, k);
  }

  /** ... because its first opening fence is that of `s`. */
  lemma FirstOpenAgrees(s: string, k: nat, i: nat, r: string)
    requires FindFrom(s, Open, 0) == Some(k) && k + |Open| <= i <= |s|
    requires i <= |r| && r[..i] == s[..i]
    ensures FindFrom(r, Open, 0) == Some(k) && r[..k] == s[..k]
  {
    FindFromSpec(s, Open, 0);
    forall j: nat | j < k ensures !StartsAt(r, j, Open) {
      AgreeUpTo(s, r, i, j, Open);
    }
    AgreeUpTo(s, r, i, k, Open);
    FindFromFirst(r, Open, 0, k);
  }

  /** Replacing the first copy of a block's text `src` leaves the cut at the opening fence
      at `k`, the first of the text, when the block at `k` has a different body. */
  lemma ReplaceKeepsCut(s: string, k: nat, e: nat, body1: string, body2: string, src: string,
                        rep: string, q: nat)
    requires FindFrom(s, Open, 0) == Some(k)
    requires k + 8 <= e && FindFrom(s, Fence, k + 8) == Some(e) && s[k + 8..e] == body1
    requires src == Open + "\n" + body2 + Fence && PlainBody(body2) && body1 != body2
    requires StartsAt(s, q, src)
    ensures Truncate(ReplaceFirst(s, src, rep)) == TrimEnd(s[..k])
  {
    FindFromSpec(s, src, 0);
    var i := FindFrom(s, src, 0).value;
    FirstCopyAfter(s, k, e, body1, body2, src, i);
    ReplaceAt(s, src, rep, i);
    var r := ReplaceFirst(s, src, rep);
    assert r[..i] == s[..i];
    TruncateBefore(s, k, i, r);
  }

  /** The first opening fence of a text of two blocks is that of the first block. */
  lemma TwoLayoutFirstOpen(s: string, pre: string, body1: string, mid: string, body2: string,
                           post: string, k1: nat, e1: nat, k2: nat, e2: nat)
    requires TwoLayout(s, pre, body1, mid, body2, post)
    requires !Contains(pre, Open) && !Contains(mid, Open) && !Contains(post, Open)
    requires k1 == |pre| && e1 == k1 + 8 + |body1| && k2 == e1 + 3 + |mid| && e2 == k2 + 8 + |body2|
    ensures FindFrom(s, Open, 0) == Some(k1)
  {
    TwoLayoutGaps(s, pre, body1, mid, body2, post, k1, e1, k2, e2);
    assert StartsAt(s, k1, Open) by {
      assert s[k1..k1 + 7] == s[k1..k1 + 8][..7];
    }
    FindFromFirst(s, Open, 0, k1);
  }

  /** The text left when the second of two blocks is accepted and the first is not: it is
      cut at the first block, which stayed in the text. */
  lemma TwoLayoutCut(s: string, pre: string, body1: string, mid: string, body2: string,
                     post: string, k1: nat, e1: nat, k2: nat, e2: nat, src: string, rep: string)
    requires TwoLayout(s, pre, body1, mid, body2, post)
    requires !Contains(pre, Open) && !Contains(mid, Open) && !Contains(post, Open)
    requires PlainBody(body1) && PlainBody(body2) && body1 != body2
    requires k1 == |pre| && e1 == k1 + 8 + |body1| && k2 == e1 + 3 + |mid| && e2 == k2 + 8 + |body2|
    requires src == s[k2..e2 + 3]
    ensures Truncate(ReplaceFirst(s, src, rep)) == TrimEnd(pre)
  {
    TwoLayoutFirstOpen(s, pre, body1, mid, body2, post, k1, e1, k2, e2);
    TwoLayoutOpened(s, pre, body1, mid, body2, post, k1, e1, k2, e2);
    TwoLayoutSource(s, pre, body1, mid, body2, post, k2, e2);
    TwoLayoutParts(s, pre, body1, mid, body2, post, k1, e1, k2, e2);
    ReplaceKeepsCut(s, k1, e1, body1, body2, src, rep, k2);
  }

  /** The hits of two matches whose first capture is rejected and second accepted. */
  lemma HitsOfTwo(s: string, parse: string -> Option<Value>, b: Block, ms: seq<Match>,
                  body1: string, body2: string, k1: nat, e1: nat, k2: nat, e2: nat)
    requires k1 + 8 <= e1 <= k2 && k2 + 8 <= e2 && e2 + 3 <= |s|
    requires ms == [Match(k1, k1 + 8, e1, e1 + 3), Match(k2, k2 + 8, e2, e2 + 3)]
    requires s[k1 + 8..e1] == body1 && s[k2 + 8..e2] == body2
    requires Accept(parse(Trim(body1))).None? && Accept(parse(Trim(body2))) == Some(b)
    ensures Hits(s, parse, ms) == [Hit(b, s[k2..e2 + 3])]
  {
    CandidateRejectedAt(s, parse, k1, e1, body1);
    CandidateAcceptedAt(s, parse, k2, e2, body2, b);
    HitsSecond(s, parse, Match(k1, k1 + 8, e1, e1 + 3), Match(k2, k2 + 8, e2, e2 + 3),
               Hit(b, s[k2..e2 + 3]));
  }

  /** The block at `[k, e + 3)`, with body `body`, is rejected. */
  lemma CandidateRejectedAt(s: string, parse: string -> Option<Value>, k: nat, e: nat, body: string)
    requires k + 8 <= e && e + 3 <= |s| && s[k + 8..e] == body && Accept(parse(Trim(body))).None?
    ensures Candidate(s, parse, Match(k, k + 8, e, e + 3)).None?
  {
  }

  /** The block at `[k, e + 3)`, with body `body`, is accepted as `b`. */
  lemma CandidateAcceptedAt(s: string, parse: string -> Option<Value>, k: nat, e: nat,
                            body: string, b: Block)
    requires k + 8 <= e && e + 3 <= |s| && s[k + 8..e] == body && Accept(parse(Trim(body))) == Some(b)
    ensures Candidate(s, parse, Match(k, k + 8, e, e + 3)) == Some(Hit(b, s[k..e + 3]))
  {
  }

  /** What a text of two blocks with different bodies yields around its blocks: their two
      matches, their bodies, and the cut at the first block once the second is replaced. */
  lemma TwoLayoutFacts(s: string, pre: string, body1: string, mid: string, body2: string,
                       post: string, k1: nat, e1: nat, k2: nat, e2: nat)
    requires TwoLayout(s, pre, body1, mid, body2, post)
    requires !Contains(pre, Open) && !Contains(mid, Open) && !Contains(post, Open)
    requires PlainBody(body1) && PlainBody(body2) && body1 != body2
    requires k1 == |pre| && e1 == k1 + 8 + |body1| && k2 == e1 + 3 + |mid| && e2 == k2 + 8 + |body2|
    ensures AllMatches(s, 0) == [Match(k1, k1 + 8, e1, e1 + 3), Match(k2, k2 + 8, e2, e2 + 3)]
    ensures e2 + 3 <= |s| && s[k1 + 8..e1] == body1 && s[k2 + 8..e2] == body2
    ensures Truncate(ReplaceFirst(s, s[k2..e2 + 3], Placeholder(0))) == TrimEnd(pre)
  {
    TwoLayoutMatches(s, pre, body1, mid, body2, post, k1, e1, k2, e2);
    TwoLayoutParts(s, pre, body1, mid, body2, post, k1, e1, k2, e2);
    TwoLayoutCut(s, pre, body1, mid, body2, post, k1, e1, k2, e2, s[k2..e2 + 3], Placeholder(0));
  }

  /** The extraction of a text whose two matches are a rejected block and an accepted one. */
  lemma ExtractTwo(s: string, parse: string -> Option<Value>, b: Block, body1: string,
                   body2: string, k1: nat, e1: nat, k2: nat, e2: nat, t: string)
    requires AllMatches(s, 0) == [Match(k1, k1 + 8, e1, e1 + 3), Match(k2, k2 + 8, e2, e2 + 3)]
    requires k1 + 8 <= e1 <= k2 && k2 + 8 <= e2 && e2 + 3 <= |s|
    requires s[k1 + 8..e1] == body1 && s[k2 + 8..e2] == body2
    requires Truncate(ReplaceFirst(s, s[k2..e2 + 3], Placeholder(0))) == t
    requires Accept(parse(Trim(body1))).None? && Accept(parse(Trim(body2))) == Some(b)
    ensures Extract(s, parse) == Extraction([b], t)
  {
    HitsOfTwo(s, parse, b, AllMatches(s, 0), body1, body2, k1, e1, k2, e2);
    ExtractOfOne(s, parse, Hit(b, s[k2..e2 + 3]), t);
  }

  /** The extraction of a text with a single hit. */
  lemma ExtractOfOne(s: string, parse: string -> Option<Value>, h: Hit, t: string)
    requires Hits(s, parse, AllMatches(s, 0)) == [h]
    requires Truncate(ReplaceFirst(s, h.source, Placeholder(0))) == t
    ensures Extract(s, parse) == Extraction([h.block], t)
  {
    ExtractOf(s, parse, [h]);
    BlocksOne(h);
    SubstituteOne(s, h);
  }

  /** A closed block that is rejected, followed by one that is accepted: the second is
      block 0, but the first stays in the text and the cut at it removes the placeholder of
      the second together with everything else after `pre`. */
  lemma RejectedThenAccepted(s: string, pre: string, body1: string, mid: string, body2: string,
                             post: string, parse: string -> Option<Value>, b: Block)
    requires TwoLayout(s, pre, body1, mid, body2, post)
    requires !Contains(pre, Open) && !Contains(mid, Open) && !Contains(post, Open)
    requires PlainBody(body1) && PlainBody(body2)
    requires Accept(parse(Trim(body1))).None? && Accept(parse(Trim(body2))) == Some(b)
    ensures Extract(s, parse) == Extraction([b], TrimEnd(pre))
  {
    var k1 := |pre|;
    var e1 := k1 + 8 + |body1|;
    var k2 := e1 + 3 + |mid|;
    var e2 := k2 + 8 + |body2|;
    TwoLayoutFacts(s, pre, body1, mid, body2, post, k1, e1, k2, e2);
    ExtractTwo(s, parse, b, body1, body2, k1, e1, k2, e2, TrimEnd(pre));
  }
}
