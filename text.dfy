/** String operations of JavaScript that the protocol relies on, over `seq<char>`:
    `\s` / `trim` / `trimEnd`, literal substring search, `String.prototype.replace`
    with a string pattern, decimal formatting of indices and `parseInt(_, 10)`. */
module Text {
  import opened Wrappers

  /** JavaScript's WhiteSpace and LineTerminator code points: the class `\s`,
      and what `trim` and `trimEnd` remove. */
  predicate IsWhitespace(c: char) {
    || c == ' ' || c == '\t' || c == '\n' || c == '\U{B}' || c == '\U{C}' || c == '\r'
    || c == '\U{A0}' || c == '\U{1680}' || ('\U{2000}' <= c <= '\U{200A}')
    || c == '\U{2028}' || c == '\U{2029}' || c == '\U{202F}' || c == '\U{205F}'
    || c == '\U{3000}' || c == '\U{FEFF}'
  }

  /** `s.trimEnd()`: the longest prefix of `s` that does not end in whitespace. */
  function TrimEnd(s: string): (r: string)
    ensures |r| <= |s| && r == s[..|r|]
    ensures r == [] || !IsWhitespace(r[|r| - 1])
  {
    if s != [] && IsWhitespace(s[|s| - 1]) then TrimEnd(s[..|s| - 1]) else s
  }

  /** Leading-whitespace removal, the first half of `s.trim()`. */
  function TrimStart(s: string): (r: string)
    ensures |r| <= |s| && r == s[|s| - |r|..]
    ensures r == [] || !IsWhitespace(r[0])
  {
    if s != [] && IsWhitespace(s[0]) then TrimStart(s[1..]) else s
  }

  /** `trimEnd` removes whitespace only. (Kept out of the function's contract so that the
      quantifier is only present where a proof asks for it.) */
  lemma {:induction false} TrimEndRemovesWhitespace(s: string)
    ensures forall i :: |TrimEnd(s)| <= i < |s| ==> IsWhitespace(s[i])
  {
    if s != [] && IsWhitespace(s[|s| - 1]) {
      TrimEndRemovesWhitespace(s[..|s| - 1]);
    }
  }

  /** `s.trim()`. */
  function Trim(s: string): string {
    TrimEnd(TrimStart(s))
  }

  /** `trimStart` removes whitespace only. */
  lemma {:induction false} TrimStartRemovesWhitespace(s: string)
    ensures forall i :: 0 <= i < |s| - |TrimStart(s)| ==> IsWhitespace(s[i])
  {
    if s != [] && IsWhitespace(s[0]) {
      TrimStartRemovesWhitespace(s[1..]);
      forall i | 1 <= i < |s| - |TrimStart(s)| ensures IsWhitespace(s[i]) {
        assert s[i] == s[1..][i - 1];
      }
    }
  }

  /** `s.trim()` is empty, hence falsy, exactly when `s` is all whitespace. */
  lemma TrimEmpty(s: string)
    ensures Trim(s) == [] <==> forall i :: 0 <= i < |s| ==> IsWhitespace(s[i])
  {
    var t := TrimStart(s);
    var d := |s| - |t|;
    TrimStartRemovesWhitespace(s);
    TrimEndRemovesWhitespace(t);
    assert t != [] ==> t[0] == s[d];
  }

  /** Trailing whitespace appended to a string does not survive `trimEnd`. */
  lemma {:induction false} TrimEndAppendWhitespace(s: string, w: string)
    requires forall i :: 0 <= i < |w| ==> IsWhitespace(w[i])
    ensures TrimEnd(s + w) == TrimEnd(s)
  {
    if w != [] {
      assert (s + w)[..|s + w| - 1] == s + w[..|w| - 1];
      TrimEndAppendWhitespace(s, w[..|w| - 1]);
    } else {
      assert s + w == s;
    }
  }

  /** Trailing whitespace appended to a string with no whitespace at either end does not
      survive `trim`. */
  lemma TrimDropsTrailingWhitespace(s: string, w: string)
    requires s != [] && !IsWhitespace(s[0]) && !IsWhitespace(s[|s| - 1])
    requires forall i :: 0 <= i < |w| ==> IsWhitespace(w[i])
    ensures Trim(s + w) == s
  {
    assert (s + w)[0] == s[0];
    assert TrimStart(s + w) == s + w;
    TrimEndAppendWhitespace(s, w);
  }

  /** Concatenation is associative. */
  lemma ConcatAssoc<T>(a: seq<T>, b: seq<T>, c: seq<T>)
    ensures a + (b + c) == (a + b) + c
  {
  }

  /** `pat` occurs in `s` at position `i`. */
  predicate StartsAt(s: string, i: nat, pat: string) {
    i + |pat| <= |s| && s[i..i + |pat|] == pat
  }

  /** The first position at or after `from` where `pat` occurs (`s.indexOf(pat, from)`). */
  function FindFrom(s: string, pat: string, from: nat): (r: Option<nat>)
    decreases |s| - from
    ensures r.Some? ==> from <= r.value && StartsAt(s, r.value, pat)
  {
    if from + |pat| > |s| then None
    else if s[from..from + |pat|] == pat then Some(from)
    else FindFrom(s, pat, from + 1)
  }

  /** The search finds the first occurrence, and finds nothing only when there is none.
      (Kept out of the function's contract so that the quantifiers are only present
      where a proof asks for them.) */
  lemma {:induction false} FindFromSpec(s: string, pat: string, from: nat)
    decreases |s| - from
    ensures FindFrom(s, pat, from).Some? ==>
      forall j :: from <= j < FindFrom(s, pat, from).value ==> !StartsAt(s, j, pat)
    ensures FindFrom(s, pat, from).None? ==> forall j :: from <= j ==> !StartsAt(s, j, pat)
  {
    if from + |pat| <= |s| && s[from..from + |pat|] != pat {
      FindFromSpec(s, pat, from + 1);
    }
  }

  /** An occurrence with none before it, from `from` on, is what the search finds. */
  lemma FindFromFirst(s: string, pat: string, from: nat, e: nat)
    requires from <= e && StartsAt(s, e, pat)
    requires forall j :: from <= j < e ==> !StartsAt(s, j, pat)
    ensures FindFrom(s, pat, from) == Some(e)
  {
    FindFromSpec(s, pat, from);
  }

  /** `s.includes(pat)`, also the regular-expression test `/pat/.test(s)` for a literal pattern. */
  predicate Contains(s: string, pat: string) {
    exists j: nat :: j <= |s| && StartsAt(s, j, pat)
  }

  /** `includes` and `indexOf` agree: the search succeeds exactly when the pattern occurs. */
  lemma ContainsFind(s: string, pat: string)
    ensures Contains(s, pat) <==> FindFrom(s, pat, 0).Some?
  {
    FindFromSpec(s, pat, 0);
  }

  /** `s.replace(pat, rep)` with a string pattern: only the first occurrence is replaced.
      (`rep` never holds a `$` pattern in this protocol.) */
  function ReplaceFirst(s: string, pat: string, rep: string): (r: string)
    ensures !Contains(s, pat) ==> r == s
    ensures Contains(s, pat) ==> |r| == |s| - |pat| + |rep|
  {
    ContainsFind(s, pat);
    match FindFrom(s, pat, 0)
    case None => s
    case Some(i) => s[..i] + rep + s[i + |pat|..]
  }

  /** Replacing where the search finds the pattern. */
  lemma ReplaceAt(s: string, pat: string, rep: string, k: nat)
    requires FindFrom(s, pat, 0) == Some(k)
    ensures ReplaceFirst(s, pat, rep) == s[..k] + rep + s[k + |pat|..]
  {
  }

  /** An occurrence in a part of a concatenation is an occurrence in the whole. */
  lemma StartsAtShift(a: string, b: string, j: nat, pat: string)
    ensures StartsAt(b, j, pat) <==> StartsAt(a + b, |a| + j, pat)
  {
    if StartsAt(b, j, pat) {
      assert (a + b)[|a| + j..|a| + j + |pat|] == b[j..j + |pat|];
    }
    if StartsAt(a + b, |a| + j, pat) {
      assert (a + b)[|a| + j..|a| + j + |pat|] == b[j..j + |pat|];
    }
  }

  /** Within a slice equal to `t`, occurrences are those of `t`, shifted. */
  lemma StartsAtSlice(s: string, lo: nat, t: string, j: nat, pat: string)
    requires lo + |t| <= |s| && s[lo..lo + |t|] == t && j + |pat| <= |t|
    ensures StartsAt(s, lo + j, pat) <==> StartsAt(t, j, pat)
  {
    var a, b := s[lo + j..lo + j + |pat|], t[j..j + |pat|];
    forall i | 0 <= i < |pat| ensures a[i] == b[i] {
      assert b[i] == s[lo..lo + |t|][j + i];
    }
    assert a == b;
  }

  /** An occurrence that lies inside the prefix `a` of `a + b` is an occurrence in `a`. */
  lemma StartsAtPrefix(a: string, b: string, j: nat, pat: string)
    requires j + |pat| <= |a|
    ensures StartsAt(a, j, pat) <==> StartsAt(a + b, j, pat)
  {
    assert (a + b)[j..j + |pat|] == a[j..j + |pat|];
  }

  /** Every occurrence of a pattern that starts with `pre` is an occurrence of `pre`. */
  lemma StartsAtLonger(s: string, j: nat, pre: string, pat: string)
    requires |pre| <= |pat| && pat[..|pre|] == pre
    requires StartsAt(s, j, pat)
    ensures StartsAt(s, j, pre)
  {
    assert s[j..j + |pre|] == s[j..j + |pat|][..|pre|];
  }

  /** No occurrence of `pat` in a string means none in any of its prefixes. */
  lemma NotContainsPrefix(s: string, n: nat, pat: string)
    requires n <= |s| && !Contains(s, pat)
    ensures !Contains(s[..n], pat)
  {
    assert s[..n] + s[n..] == s;
    forall j: nat | j + |pat| <= n
      ensures !StartsAt(s[..n], j, pat)
    {
      StartsAtPrefix(s[..n], s[n..], j, pat);
    }
  }

  /** Decimal digit character of a number below ten. */
  function Digit(d: nat): (c: char)
    requires d < 10
    ensures '0' <= c <= '9' && c as int - '0' as int == d
  {
    ('0' as int + d) as char
  }

  predicate IsDigit(c: char) {
    '0' <= c <= '9'
  }

  /** The decimal form of a number, as `${n}` writes a non-negative integer. */
  function NatToString(n: nat): (r: string)
    ensures r != [] && forall i :: 0 <= i < |r| ==> IsDigit(r[i])
  {
    if n < 10 then [Digit(n)] else NatToString(n / 10) + [Digit(n % 10)]
  }

  /** `parseInt(ds, 10)` for a non-empty string of decimal digits (leading zeros allowed). */
  function DigitsValue(ds: string): nat
    requires forall i :: 0 <= i < |ds| ==> IsDigit(ds[i])
  {
    if ds == [] then 0
    else
      assert IsDigit(ds[|ds| - 1]);
      var d := ds[|ds| - 1] as int - '0' as int;
      10 * DigitsValue(ds[..|ds| - 1]) + d
  }

  /** Parsing the decimal form of a number gives the number back. */
  lemma {:induction false} DigitsValueOfNatToString(n: nat)
    ensures DigitsValue(NatToString(n)) == n
  {
    if n >= 10 {
      DigitsValueOfNatToString(n / 10);
      var r := NatToString(n);
      assert r[..|r| - 1] == NatToString(n / 10);
    }
  }
}
