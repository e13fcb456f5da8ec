/**
 * The textual form of filter rules: "<class>,<vendor>,<product>,<version>,<allow>"
 * with configurable token and rule separators. This module holds the
 * specification of parsing (strtok_r splitting, strtol conversion) and of
 * printing, and the round trip between them. Strings are the characters of a
 * C string before its terminating NUL.
 */
module FilterText {
  import opened Wrappers
  import opened UsbFilter

  /* ---------- strtok_r ---------- */

  predicate NoSep(t: string, seps: string)
  {
    forall k :: 0 <= k < |t| ==> t[k] !in seps
  }

  /** strcspn: the length of the longest prefix of s free of separators. */
  function SpanNot(s: string, seps: string): (n: nat)
    ensures n <= |s|
    ensures |s| > 0 && s[0] !in seps ==> n > 0
  {
    if |s| == 0 || s[0] in seps then 0 else 1 + SpanNot(s[1..], seps)
  }

  /** The prefix SpanNot measures is free of separators and ends at one or at the end. */
  lemma {:induction false} SpanNotSpec(s: string, seps: string)
    ensures NoSep(s[..SpanNot(s, seps)], seps)
    ensures SpanNot(s, seps) < |s| ==> s[SpanNot(s, seps)] in seps
  {
    if |s| > 0 && s[0] !in seps {
      SpanNotSpec(s[1..], seps);
      var n := SpanNot(s, seps);
      assert forall k :: 1 <= k < n ==> s[k] == s[1..][k - 1];
    }
  }

  /** strspn: the length of the longest prefix of s made of separators. */
  function SpanIn(s: string, seps: string): (n: nat)
    ensures n <= |s|
  {
    if |s| == 0 || s[0] !in seps then 0 else 1 + SpanIn(s[1..], seps)
  }

  /** The prefix SpanIn measures is all separators and ends at a non-separator or at the end. */
  lemma {:induction false} SpanInSpec(s: string, seps: string)
    ensures forall k :: 0 <= k < SpanIn(s, seps) ==> s[k] in seps
    ensures SpanIn(s, seps) < |s| ==> s[SpanIn(s, seps)] !in seps
  {
    if |s| > 0 && s[0] in seps {
      SpanInSpec(s[1..], seps);
      var n := SpanIn(s, seps);
      assert forall k :: 1 <= k < n ==> s[k] == s[1..][k - 1];
    }
  }

  /**
   * The tokens successive strtok_r calls return: the maximal runs of
   * non-separator characters, so that leading, trailing and repeated
   * separators produce no empty token.
   */
  function Tokens(s: string, seps: string): (ts: seq<string>)
    decreases |s|
  {
    if |s| == 0 then []
    else if s[0] in seps then Tokens(s[1..], seps)
    else
      var n := SpanNot(s, seps);
      [s[..n]] + Tokens(s[n..], seps)
  }

  /**
   * One call of strtok_r on s resuming at pos: the token found, if any, and
   * the position the next call resumes from (just past the separator that
   * ended the token, which strtok_r overwrites with NUL).
   */
  function StrtokFrom(s: string, seps: string, pos: nat): (r: (Option<string>, nat))
    requires pos <= |s|
    ensures pos <= r.1 <= |s|
  {
    var i := pos + SpanIn(s[pos..], seps);
    if i == |s| then (None, |s|)
    else
      var j := i + SpanNot(s[i..], seps);
      (Some(s[i..j]), if j < |s| then j + 1 else j)
  }

  /** Leading separators make no token. */
  lemma {:induction false} TokensSkip(s: string, seps: string, n: nat)
    requires n <= |s| && forall k :: 0 <= k < n ==> s[k] in seps
    ensures Tokens(s, seps) == Tokens(s[n..], seps)
    decreases n
  {
    if n > 0 {
      assert s[1..][n - 1..] == s[n..];
      TokensSkip(s[1..], seps, n - 1);
    }
  }

  /** strtok_r walks through exactly the tokens of Tokens. */
  lemma StrtokFromTokens(s: string, seps: string, pos: nat)
    requires pos <= |s|
    ensures StrtokFrom(s, seps, pos).0.None? ==> Tokens(s[pos..], seps) == []
    ensures StrtokFrom(s, seps, pos).0.Some? ==>
              Tokens(s[pos..], seps) == [StrtokFrom(s, seps, pos).0.value] + Tokens(s[StrtokFrom(s, seps, pos).1..], seps)
  {
    var t := s[pos..];
    var m := SpanIn(t, seps);
    var i := pos + m;
    var j := if i < |s| then i + SpanNot(s[i..], seps) else i;
    var next := if j < |s| then j + 1 else j;
    assert i < |s| ==> StrtokFrom(s, seps, pos) == (Some(s[i..j]), next);
    SpanInSpec(t, seps);
    TokensSkip(t, seps, m);
    assert t[m..] == s[i..];
    if i == |s| {
      assert s[i..] == [];
    } else {
      TokenAt(s, seps, i, j, next);
    }
  }

  /** The token strtok_r finds at a non-separator, and where it resumes after it. */
  lemma TokenAt(s: string, seps: string, i: nat, j: nat, next: nat)
    requires i < |s| && s[i] !in seps
    requires j == i + SpanNot(s[i..], seps) && next == if j < |s| then j + 1 else j
    ensures Tokens(s[i..], seps) == [s[i..j]] + Tokens(s[next..], seps)
  {
    var u := s[i..];
    var n := SpanNot(u, seps);
    TokensHeadToken(u, seps);
    assert u[..n] == s[i..j];
    assert u[n..] == s[j..];
    if j < |s| {
      SpanNotSpec(u, seps);
      TokensHeadSep(s[j..], seps);
      assert s[j..][1..] == s[j + 1..];
    }
  }

  lemma TokensHeadToken(s: string, seps: string)
    requires |s| > 0 && s[0] !in seps
    ensures Tokens(s, seps) == [s[..SpanNot(s, seps)]] + Tokens(s[SpanNot(s, seps)..], seps)
  {
  }

  /** A non-empty separator-free piece followed by a separator is one token. */
  lemma TokensCons(t: string, c: char, rest: string, seps: string)
    requires |t| > 0 && NoSep(t, seps) && c in seps
    ensures Tokens(t + [c] + rest, seps) == [t] + Tokens(rest, seps)
  {
    var s := t + [c] + rest;
    SpanNotPrefix(t, [c] + rest, seps);
    assert s == t + ([c] + rest);
    assert s[0] == t[0] && s[0] !in seps;
    assert s[..|t|] == t;
    assert s[|t|..] == [c] + rest;
    TokensHeadSep([c] + rest, seps);
    assert ([c] + rest)[1..] == rest;
  }

  lemma TokensHeadSep(s: string, seps: string)
    requires |s| > 0 && s[0] in seps
    ensures Tokens(s, seps) == Tokens(s[1..], seps)
  {
  }

  /** A non-empty separator-free string is a single token. */
  lemma TokensSingle(t: string, seps: string)
    requires |t| > 0 && NoSep(t, seps)
    ensures Tokens(t, seps) == [t]
  {
    SpanNotPrefix(t, [], seps);
    assert t + [] == t;
  }

  lemma {:induction false} SpanNotPrefix(t: string, rest: string, seps: string)
    requires NoSep(t, seps) && (|rest| == 0 || rest[0] in seps)
    ensures SpanNot(t + rest, seps) == |t|
  {
    if |t| > 0 {
      assert (t + rest)[1..] == t[1..] + rest;
      SpanNotPrefix(t[1..], rest, seps);
    }
  }

  /* ---------- strtol with base 0 ---------- */

  /** isspace in the C locale. */
  predicate IsSpace(c: char)
  {
    c == ' ' || 9 <= c as int <= 13
  }

  /** The digit value strtol gives a character (letters up to base 36), 36 for a non-digit. */
  function DigitValue(c: char): (d: nat)
    ensures d <= 36
  {
    if '0' <= c <= '9' then c as int - '0' as int
    else if 'a' <= c <= 'z' then c as int - 'a' as int + 10
    else if 'A' <= c <= 'Z' then c as int - 'A' as int + 10
    else 36
  }

  predicate AllDigits(s: string, base: nat)
  {
    forall k :: 0 <= k < |s| ==> DigitValue(s[k]) < base
  }

  /** The value of a digit string, most significant digit first. */
  function DigitsValue(s: string, base: nat): nat
    requires AllDigits(s, base)
  {
    if |s| == 0 then 0
    else DigitsValue(s[..|s| - 1], base) * base + DigitValue(s[|s| - 1])
  }

  function SpacePrefix(s: string): (n: nat)
    ensures n <= |s|
  {
    if |s| == 0 || !IsSpace(s[0]) then 0 else 1 + SpacePrefix(s[1..])
  }

  /**
   * The magnitude strtol reads from u (after white space and sign), provided
   * the digits run to the end of u: "0x"/"0X" then hexadecimal digits, a
   * leading "0" then octal digits, otherwise decimal digits.
   */
  function Magnitude(u: string): Option<nat>
  {
    if |u| >= 2 && u[0] == '0' && (u[1] == 'x' || u[1] == 'X') then
      if |u| > 2 && AllDigits(u[2..], 16) then Some(DigitsValue(u[2..], 16)) else None
    else if |u| >= 1 && u[0] == '0' then
      if AllDigits(u, 8) then Some(DigitsValue(u, 8)) else None
    else if |u| >= 1 && AllDigits(u, 10) then Some(DigitsValue(u, 10))
    else None
  }

  /**
   * The exact number written in tok, when strtol(tok, &ep, 0) consumes the
   * whole token (*ep == '\0'); None when it stops early or finds no digits.
   */
  function StrtolExact(tok: string): (r: Option<int>)
  {
    var t := tok[SpacePrefix(tok)..];
    var neg := |t| > 0 && t[0] == '-';
    var u := if |t| > 0 && (t[0] == '-' || t[0] == '+') then t[1..] else t;
    match Magnitude(u)
    case None => None
    case Some(m) => var v: int := m; Some(if neg then -v else v)
  }

  /* ---------- parsing ---------- */

  /** The value a token contributes to a rule. */
  function TokenValue(tok: string): Option<int>
  {
    StrtolExact(tok)
  }

  /** The value strtol gives each token, if it reads the whole token. */
  function TokenValues(toks: seq<string>): (vs: seq<Option<int>>)
    ensures |vs| == |toks|
  {
    seq(|toks|, k requires 0 <= k < |toks| => TokenValue(toks[k]))
  }

  /**
   * One rule from the values of its tokens: exactly five, each entirely
   * numeric, and the resulting rule within range.
   */
  function RuleFromValues(vs: seq<Option<int>>): (r: Option<Rule>)
    ensures r.Some? ==> RuleValid(r.value)
    ensures r.Some? <==> |vs| == 5 && (forall k :: 0 <= k < 5 ==> vs[k].Some?) &&
                         RuleValid(Rule(vs[0].value, vs[1].value, vs[2].value, vs[3].value, vs[4].value))
    ensures r.Some? ==> r.value == Rule(vs[0].value, vs[1].value, vs[2].value, vs[3].value, vs[4].value)
  {
    if |vs| != 5 then None
    else
      match (vs[0], vs[1], vs[2], vs[3], vs[4])
      case (Some(c), Some(v), Some(p), Some(b), Some(a)) =>
        var r := Rule(c, v, p, b, a);
        if RuleValid(r) then Some(r) else None
      case _ => None
  }

  function RuleFromTokens(toks: seq<string>): Option<Rule>
  {
    RuleFromValues(TokenValues(toks))
  }

  /** One rule string: split at the token separators, then converted. */
  function ParseRule(text: string, tokenSep: string): (r: Option<Rule>)
    ensures r.Some? ==> RuleValid(r.value)
  {
    RuleFromTokens(Tokens(text, tokenSep))
  }

  /** Gathering the results of the rule strings: the whole fails if any one fails. */
  function Collect(results: seq<Option<Rule>>): (r: Result<seq<Rule>>)
    ensures r.Err? ==> r.code == -EINVAL
    ensures r.Ok? <==> forall i :: 0 <= i < |results| ==> results[i].Some?
    ensures r.Ok? ==> |r.value| == |results| && forall i :: 0 <= i < |results| ==> r.value[i] == results[i].value
  {
    if |results| == 0 then Ok([])
    else match results[0]
      case None => Err(-EINVAL)
      case Some(rule) =>
        match Collect(results[1..])
        case Err(e) => Err(e)
        case Ok(rules) =>
          assert forall i :: 1 <= i < |results| ==> results[i] == results[1..][i - 1];
          Ok([rule] + rules)
  }

  /** The result of each rule string. */
  function ParseEach(texts: seq<string>, tokenSep: string): (rs: seq<Option<Rule>>)
    ensures |rs| == |texts|
  {
    seq(|texts|, i requires 0 <= i < |texts| => ParseRule(texts[i], tokenSep))
  }

  /**
   * usbredirfilter_string_to_rules as a function: -EINVAL for an empty
   * separator or any bad rule, else one rule per non-empty rule string.
   */
  function ParseRules(filter: string, tokenSep: string, ruleSep: string): (r: Result<seq<Rule>>)
    ensures (|tokenSep| == 0 || |ruleSep| == 0) ==> r == Err(-EINVAL)
    ensures r.Err? ==> r.code == -EINVAL
    ensures r.Ok? ==> AllValid(r.value) && |r.value| == |Tokens(filter, ruleSep)|
  {
    if |tokenSep| == 0 || |ruleSep| == 0 then Err(-EINVAL)
    else
      var results := ParseEach(Tokens(filter, ruleSep), tokenSep);
      var r := Collect(results);
      assert r.Ok? ==> forall i :: 0 <= i < |r.value| ==> results[i].Some? && RuleValid(results[i].value);
      r
  }

  /* ---------- printing ---------- */

  function Pow16(w: nat): (p: nat)
    ensures p >= 1
  {
    if w == 0 then 1 else 16 * Pow16(w - 1)
  }

  function HexDigit(d: int): char
    requires 0 <= d < 16
  {
    if d < 10 then ('0' as int + d) as char else ('a' as int + d - 10) as char
  }

  /** printf "%0<width>x" of a value that fits in width hexadecimal digits. */
  function Hex(v: nat, width: nat): (h: string)
    ensures |h| == width
  {
    if width == 0 then [] else Hex(v / 16, width - 1) + [HexDigit(v % 16)]
  }

  /** One rule field: "0x" and width lower-case hex digits, or "-1" for the wildcard. */
  function FieldText(v: int, width: nat): string
    requires v == -1 || 0 <= v < Pow16(width)
  {
    if v != -1 then "0x" + Hex(v, width) else "-1"
  }

  function AllowText(allow: int): string
  {
    if allow != 0 then "1" else "0"
  }

  /** The text of one rule, its five fields each followed by the token separator but the last. */
  function RuleText(r: Rule, tc: char): string
    requires RuleValid(r)
  {
    FieldText(r.deviceClass, 2) + [tc] + FieldText(r.vendorId, 4) + [tc] +
    FieldText(r.productId, 4) + [tc] + FieldText(r.versionBcd, 4) + [tc] + AllowText(r.allow)
  }

  /** The rule texts joined by the rule separator, with none after the last. */
  function FormatRules(rules: seq<Rule>, tc: char, rc: char): string
    requires AllValid(rules)
  {
    if |rules| == 0 then ""
    else if |rules| == 1 then RuleText(rules[0], tc)
    else RuleText(rules[0], tc) + [rc] + FormatRules(rules[1..], tc, rc)
  }

  /**
   * usbredirfilter_rules_to_string as a function: NULL (None) for rules
   * failing verification or an empty separator; only the first character of
   * each separator is used.
   */
  function PrintedRules(rules: seq<Rule>, tokenSep: string, ruleSep: string): (r: Option<string>)
    ensures r.Some? <==> AllValid(rules) && |tokenSep| > 0 && |ruleSep| > 0
  {
    if Verify(rules) != 0 then None
    else if |tokenSep| == 0 || |ruleSep| == 0 then None
    else Some(FormatRules(rules, tokenSep[0], ruleSep[0]))
  }

  /* ---------- round trip ---------- */

  /** The characters printing can produce inside a field. */
  const FieldAlphabet := "0123456789abcdefx-"

  /**
   * Separators that cannot be confused with printed fields: non-empty, using
   * no character a field contains, and the token separator printed is not a
   * rule separator.
   */
  predicate SafeSeparators(tokenSep: string, ruleSep: string)
  {
    |tokenSep| > 0 && |ruleSep| > 0 && tokenSep[0] !in ruleSep &&
    (forall k :: 0 <= k < |tokenSep| ==> tokenSep[k] !in FieldAlphabet) &&
    (forall k :: 0 <= k < |ruleSep| ==> ruleSep[k] !in FieldAlphabet)
  }

  /** A rule as printing and re-parsing leaves it: allow becomes 0 or 1. */
  function Canonical(r: Rule): Rule
  {
    r.(allow := if r.allow != 0 then 1 else 0)
  }

  function CanonicalRules(rules: seq<Rule>): (c: seq<Rule>)
    ensures |c| == |rules|
  {
    seq(|rules|, i requires 0 <= i < |rules| => Canonical(rules[i]))
  }

  predicate InAlphabet(s: string)
  {
    forall k :: 0 <= k < |s| ==> s[k] in FieldAlphabet
  }

  lemma HexDigitValue(d: int)
    requires 0 <= d < 16
    ensures DigitValue(HexDigit(d)) == d && HexDigit(d) in FieldAlphabet
  {
    if d < 10 {
      assert HexDigit(d) == FieldAlphabet[d];
    } else {
      assert HexDigit(d) == FieldAlphabet[d];
    }
  }

  lemma {:induction false} HexDigitsValue(v: nat, width: nat)
    requires v < Pow16(width)
    ensures AllDigits(Hex(v, width), 16) && InAlphabet(Hex(v, width))
    ensures DigitsValue(Hex(v, width), 16) == v
  {
    if width > 0 {
      var q, d := v / 16, v % 16;
      assert v == q * 16 + d;
      assert q < Pow16(width - 1);
      var h := Hex(v, width);
      HexDigitsValue(q, width - 1);
      HexDigitValue(d);
      assert h == Hex(q, width - 1) + [HexDigit(d)];
      assert h[..|h| - 1] == Hex(q, width - 1);
      assert DigitsValue(h, 16) == DigitsValue(Hex(q, width - 1), 16) * 16 + d;
    }
  }

  lemma WildcardValue()
    ensures TokenValue("-1") == Some(-1)
  {
    var f := "-1";
    assert SpacePrefix(f) == 0;
    assert f[0..] == f;
    assert f[1..] == "1";
    assert DigitsValue("1", 10) == DigitsValue("", 10) * 10 + 1;
  }

  lemma HexFieldValue(v: nat, width: nat)
    requires width > 0 && v < Pow16(width)
    ensures InAlphabet("0x" + Hex(v, width))
    ensures TokenValue("0x" + Hex(v, width)) == Some(v)
  {
    var h := Hex(v, width);
    var f := "0x" + h;
    HexDigitsValue(v, width);
    assert SpacePrefix(f) == 0;
    assert f[0..] == f;
    assert f[2..] == h;
    assert Magnitude(f) == Some(v);
  }

  lemma FieldValue(v: int, width: nat)
    requires width > 0 && (v == -1 || 0 <= v < Pow16(width))
    ensures |FieldText(v, width)| > 0 && InAlphabet(FieldText(v, width))
    ensures TokenValue(FieldText(v, width)) == Some(v)
  {
    if v == -1 {
      WildcardValue();
    } else {
      HexFieldValue(v, width);
    }
  }

  lemma AllowValue(allow: int)
    ensures InAlphabet(AllowText(allow)) && |AllowText(allow)| == 1
    ensures TokenValue(AllowText(allow)) == Some(if allow != 0 then 1 else 0)
  {
    var a := AllowText(allow);
    assert SpacePrefix(a) == 0;
    assert a[0..] == a;
    if allow != 0 {
      assert DigitsValue(a, 10) == DigitsValue("", 10) * 10 + 1;
    } else {
      assert DigitsValue(a, 8) == DigitsValue("", 8) * 8 + 0;
    }
  }

  lemma AlphabetNoSep(s: string, seps: string)
    requires InAlphabet(s)
    requires forall k :: 0 <= k < |seps| ==> seps[k] !in FieldAlphabet
    ensures NoSep(s, seps)
  {
    forall k | 0 <= k < |s|
      ensures s[k] !in seps
    {
    }
  }

  lemma NoSepJoin(a: string, c: char, b: string, seps: string)
    requires NoSep(a, seps) && c !in seps && NoSep(b, seps)
    ensures NoSep(a + [c] + b, seps)
  {
    var s := a + [c] + b;
    forall k | 0 <= k < |s|
      ensures s[k] !in seps
    {
      if k < |a| {
        assert s[k] == a[k];
      } else if k > |a| {
        assert s[k] == b[k - |a| - 1];
      }
    }
  }

  /** Each printed field is a non-empty word over the field alphabet. */
  lemma RuleFields(r: Rule, seps: string)
    requires RuleValid(r)
    requires forall k :: 0 <= k < |seps| ==> seps[k] !in FieldAlphabet
    ensures |FieldText(r.deviceClass, 2)| > 0 && NoSep(FieldText(r.deviceClass, 2), seps)
    ensures |FieldText(r.vendorId, 4)| > 0 && NoSep(FieldText(r.vendorId, 4), seps)
    ensures |FieldText(r.productId, 4)| > 0 && NoSep(FieldText(r.productId, 4), seps)
    ensures |FieldText(r.versionBcd, 4)| > 0 && NoSep(FieldText(r.versionBcd, 4), seps)
    ensures |AllowText(r.allow)| > 0 && NoSep(AllowText(r.allow), seps)
  {
    FieldValue(r.deviceClass, 2);
    FieldValue(r.vendorId, 4);
    FieldValue(r.productId, 4);
    FieldValue(r.versionBcd, 4);
    AllowValue(r.allow);
    AlphabetNoSep(FieldText(r.deviceClass, 2), seps);
    AlphabetNoSep(FieldText(r.vendorId, 4), seps);
    AlphabetNoSep(FieldText(r.productId, 4), seps);
    AlphabetNoSep(FieldText(r.versionBcd, 4), seps);
    AlphabetNoSep(AllowText(r.allow), seps);
  }

  /** Five separator-free words joined by a separator split back into the five words. */
  lemma TokensOfFive(f0: string, f1: string, f2: string, f3: string, f4: string, tc: char, seps: string)
    requires |f0| > 0 && |f1| > 0 && |f2| > 0 && |f3| > 0 && |f4| > 0
    requires NoSep(f0, seps) && NoSep(f1, seps) && NoSep(f2, seps) && NoSep(f3, seps) && NoSep(f4, seps)
    requires tc in seps
    ensures Tokens(f0 + [tc] + f1 + [tc] + f2 + [tc] + f3 + [tc] + f4, seps) == [f0, f1, f2, f3, f4]
  {
    var s3 := f3 + [tc] + f4;
    var s2 := f2 + [tc] + s3;
    var s1 := f1 + [tc] + s2;
    var s0 := f0 + [tc] + s1;
    assert f0 + [tc] + f1 + [tc] + f2 + [tc] + f3 + [tc] + f4 == s0;
    TokensSingle(f4, seps);
    TokensCons(f3, tc, f4, seps);
    TokensCons(f2, tc, s3, seps);
    TokensCons(f1, tc, s2, seps);
    TokensCons(f0, tc, s1, seps);
  }

  /** Five separator-free words joined by a non-separator contain no separator. */
  lemma NoSepOfFive(f0: string, f1: string, f2: string, f3: string, f4: string, tc: char, seps: string)
    requires NoSep(f0, seps) && NoSep(f1, seps) && NoSep(f2, seps) && NoSep(f3, seps) && NoSep(f4, seps)
    requires tc !in seps
    ensures NoSep(f0 + [tc] + f1 + [tc] + f2 + [tc] + f3 + [tc] + f4, seps)
  {
    NoSepJoin(f0, tc, f1, seps);
    NoSepJoin(f0 + [tc] + f1, tc, f2, seps);
    NoSepJoin(f0 + [tc] + f1 + [tc] + f2, tc, f3, seps);
    NoSepJoin(f0 + [tc] + f1 + [tc] + f2 + [tc] + f3, tc, f4, seps);
  }

  /** The fields of a printed rule come back as its five tokens. */
  lemma RuleTextTokens(r: Rule, tokenSep: string, ruleSep: string)
    requires RuleValid(r) && SafeSeparators(tokenSep, ruleSep)
    ensures Tokens(RuleText(r, tokenSep[0]), tokenSep) ==
              [FieldText(r.deviceClass, 2), FieldText(r.vendorId, 4), FieldText(r.productId, 4),
               FieldText(r.versionBcd, 4), AllowText(r.allow)]
  {
    RuleFields(r, tokenSep);
    TokensOfFive(FieldText(r.deviceClass, 2), FieldText(r.vendorId, 4), FieldText(r.productId, 4),
                 FieldText(r.versionBcd, 4), AllowText(r.allow), tokenSep[0], tokenSep);
  }

  /** A printed rule holds no rule separator. */
  lemma RuleTextNoRuleSep(r: Rule, tokenSep: string, ruleSep: string)
    requires RuleValid(r) && SafeSeparators(tokenSep, ruleSep)
    ensures NoSep(RuleText(r, tokenSep[0]), ruleSep) && |RuleText(r, tokenSep[0])| > 0
  {
    RuleFields(r, ruleSep);
    NoSepOfFive(FieldText(r.deviceClass, 2), FieldText(r.vendorId, 4), FieldText(r.productId, 4),
                FieldText(r.versionBcd, 4), AllowText(r.allow), tokenSep[0], ruleSep);
  }

  lemma ParseRuleText(r: Rule, tokenSep: string, ruleSep: string)
    requires RuleValid(r) && SafeSeparators(tokenSep, ruleSep)
    ensures ParseRule(RuleText(r, tokenSep[0]), tokenSep) == Some(Canonical(r))
  {
    RuleTextTokens(r, tokenSep, ruleSep);
    FieldValue(r.deviceClass, 2);
    FieldValue(r.vendorId, 4);
    FieldValue(r.productId, 4);
    FieldValue(r.versionBcd, 4);
    AllowValue(r.allow);
    RuleFromFive(FieldText(r.deviceClass, 2), FieldText(r.vendorId, 4), FieldText(r.productId, 4),
                 FieldText(r.versionBcd, 4), AllowText(r.allow), Canonical(r));
  }

  lemma RuleFromFive(f0: string, f1: string, f2: string, f3: string, f4: string, r: Rule)
    requires TokenValue(f0) == Some(r.deviceClass) && TokenValue(f1) == Some(r.vendorId)
    requires TokenValue(f2) == Some(r.productId) && TokenValue(f3) == Some(r.versionBcd)
    requires TokenValue(f4) == Some(r.allow) && RuleValid(r)
    ensures RuleFromTokens([f0, f1, f2, f3, f4]) == Some(r)
  {
  }

  /** The printed text of each rule. */
  function RuleTexts(rules: seq<Rule>, tc: char): (ts: seq<string>)
    requires AllValid(rules)
    ensures |ts| == |rules|
  {
    seq(|rules|, i requires 0 <= i < |rules| => RuleText(rules[i], tc))
  }

  /** Splitting the printed rules at the rule separator gives the printed text of each rule. */
  lemma {:induction false} TokensOfFormat(rules: seq<Rule>, tokenSep: string, ruleSep: string)
    requires AllValid(rules) && SafeSeparators(tokenSep, ruleSep)
    ensures Tokens(FormatRules(rules, tokenSep[0], ruleSep[0]), ruleSep) == RuleTexts(rules, tokenSep[0])
  {
    var tc, rc := tokenSep[0], ruleSep[0];
    if |rules| > 0 {
      var text := RuleText(rules[0], tc);
      RuleTextNoRuleSep(rules[0], tokenSep, ruleSep);
      if |rules| == 1 {
        TokensSingle(text, ruleSep);
      } else {
        assert rc in ruleSep;
        TokensCons(text, rc, FormatRules(rules[1..], tc, rc), ruleSep);
        TokensOfFormat(rules[1..], tokenSep, ruleSep);
        assert RuleTexts(rules, tc) == [text] + RuleTexts(rules[1..], tc);
      }
    }
  }

  /** Each printed rule parses back to its canonical form. */
  lemma ParseEachOfRules(rules: seq<Rule>, tokenSep: string, ruleSep: string)
    requires AllValid(rules) && SafeSeparators(tokenSep, ruleSep)
    ensures Collect(ParseEach(RuleTexts(rules, tokenSep[0]), tokenSep)) == Ok(CanonicalRules(rules))
  {
    var texts := RuleTexts(rules, tokenSep[0]);
    var results := ParseEach(texts, tokenSep);
    forall i | 0 <= i < |rules|
      ensures results[i] == Some(Canonical(rules[i]))
    {
      ParseRuleText(rules[i], tokenSep, ruleSep);
    }
    var r := Collect(results);
    assert r.Ok?;
    assert r.value == CanonicalRules(rules);
  }

  lemma ParseFormatted(rules: seq<Rule>, tokenSep: string, ruleSep: string)
    requires AllValid(rules) && SafeSeparators(tokenSep, ruleSep)
    ensures ParseRules(FormatRules(rules, tokenSep[0], ruleSep[0]), tokenSep, ruleSep) == Ok(CanonicalRules(rules))
  {
    TokensOfFormat(rules, tokenSep, ruleSep);
    ParseEachOfRules(rules, tokenSep, ruleSep);
  }

  /**
   * Printing valid rules and parsing the text back gives the rules again,
   * with allow normalised to 0 or 1.
   */
  lemma ParseFormatRoundTrip(rules: seq<Rule>, tokenSep: string, ruleSep: string)
    requires AllValid(rules) && SafeSeparators(tokenSep, ruleSep)
    ensures PrintedRules(rules, tokenSep, ruleSep).Some?
    ensures ParseRules(PrintedRules(rules, tokenSep, ruleSep).value, tokenSep, ruleSep) == Ok(CanonicalRules(rules))
  {
    ParseFormatted(rules, tokenSep, ruleSep);
  }

  /** Printing depends on allow only through whether it is zero. */
  lemma {:induction false} FormatCanonical(rules: seq<Rule>, tc: char, rc: char)
    requires AllValid(rules)
    ensures AllValid(CanonicalRules(rules))
    ensures FormatRules(CanonicalRules(rules), tc, rc) == FormatRules(rules, tc, rc)
  {
    if |rules| > 1 {
      FormatCanonical(rules[1..], tc, rc);
      assert CanonicalRules(rules)[1..] == CanonicalRules(rules[1..]);
    }
  }

  /**
   * A string that parses prints as a canonical string: parsing that string
   * gives the same rules (allow normalised), and printing them gives the
   * canonical string again.
   */
  lemma CanonicalStringIsFixpoint(filter: string, tokenSep: string, ruleSep: string, rules: seq<Rule>)
    requires SafeSeparators(tokenSep, ruleSep)
    requires ParseRules(filter, tokenSep, ruleSep) == Ok(rules)
    ensures PrintedRules(rules, tokenSep, ruleSep).Some?
    ensures var out := PrintedRules(rules, tokenSep, ruleSep).value;
            ParseRules(out, tokenSep, ruleSep) == Ok(CanonicalRules(rules)) &&
            PrintedRules(CanonicalRules(rules), tokenSep, ruleSep) == Some(out)
  {
    ParseFormatRoundTrip(rules, tokenSep, ruleSep);
    FormatCanonical(rules, tokenSep[0], ruleSep[0]);
  }

  /* ---------- the printed string as C string bytes ---------- */

  /** Every character fits a byte and none is NUL, so the string is a C string's contents. */
  predicate NonNulBytes(s: string)
  {
    forall i :: 0 <= i < |s| ==> 0 < s[i] as int < 0x100
  }

  lemma NonNulBytesConcat(a: string, b: string)
    requires NonNulBytes(a) && NonNulBytes(b)
    ensures NonNulBytes(a + b)
  {
    forall i | 0 <= i < |a + b|
      ensures 0 < (a + b)[i] as int < 0x100
    {
      if i >= |a| {
        assert (a + b)[i] == b[i - |a|];
      }
    }
  }

  /** Printed hex digits are bytes other than NUL. */
  lemma {:induction false} HexBytes(v: nat, width: nat)
    ensures NonNulBytes(Hex(v, width))
  {
    if width > 0 {
      HexBytes(v / 16, width - 1);
      NonNulBytesConcat(Hex(v / 16, width - 1), [HexDigit(v % 16)]);
    }
  }

  lemma FieldBytes(v: int, width: nat)
    requires v == -1 || 0 <= v < Pow16(width)
    ensures NonNulBytes(FieldText(v, width))
  {
    if v != -1 {
      HexBytes(v, width);
      NonNulBytesConcat("0x", Hex(v, width));
    }
  }

  lemma RuleBytes(r: Rule, tc: char)
    requires RuleValid(r) && 0 < tc as int < 0x100
    ensures NonNulBytes(RuleText(r, tc))
  {
    FieldBytes(r.deviceClass, 2);
    FieldBytes(r.vendorId, 4);
    FieldBytes(r.productId, 4);
    FieldBytes(r.versionBcd, 4);
    var t := [tc];
    var a := FieldText(r.deviceClass, 2) + t;
    NonNulBytesConcat(FieldText(r.deviceClass, 2), t);
    NonNulBytesConcat(a, FieldText(r.vendorId, 4));
    var b := a + FieldText(r.vendorId, 4);
    NonNulBytesConcat(b, t);
    NonNulBytesConcat(b + t, FieldText(r.productId, 4));
    var c := b + t + FieldText(r.productId, 4);
    NonNulBytesConcat(c, t);
    NonNulBytesConcat(c + t, FieldText(r.versionBcd, 4));
    var e := c + t + FieldText(r.versionBcd, 4);
    NonNulBytesConcat(e, t);
    NonNulBytesConcat(e + t, AllowText(r.allow));
  }

  /**
   * A printed rule list is made of bytes other than NUL when the separators
   * are, so it travels as a C string and its end is its NUL.
   */
  lemma {:induction false} FormatBytes(rules: seq<Rule>, tc: char, rc: char)
    requires AllValid(rules) && 0 < tc as int < 0x100 && 0 < rc as int < 0x100
    ensures NonNulBytes(FormatRules(rules, tc, rc))
  {
    if |rules| == 1 {
      RuleBytes(rules[0], tc);
    } else if |rules| > 1 {
      assert AllValid(rules[1..]);
      RuleBytes(rules[0], tc);
      FormatBytes(rules[1..], tc, rc);
      NonNulBytesConcat(RuleText(rules[0], tc), [rc]);
      NonNulBytesConcat(RuleText(rules[0], tc) + [rc], FormatRules(rules[1..], tc, rc));
    }
  }
}
