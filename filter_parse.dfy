/**
 * usbredirfilter_string_to_rules and usbredirfilter_rules_to_string as the
 * C code runs them: a counting pass, then strtok_r loops filling a zeroed
 * rules array; and sprintf calls appending into a buffer sized for the worst
 * case. Each is proved against the functions of FilterText.
 */
module FilterParse {
  import opened Wrappers
  import opened UsbFilter
  import opened FilterText

  /**
   * The counting pass: skip separators, count a rule, skip to the next
   * separator, until the end of the string.
   */
  method CountRules(filter: string, ruleSep: string) returns (count: nat)
    ensures count == |Tokens(filter, ruleSep)|
  {
    var r: nat := 0;
    count := 0;
    assert filter[0..] == filter;
    while true
      invariant r <= |filter|
      invariant count + |Tokens(filter[r..], ruleSep)| == |Tokens(filter, ruleSep)|
      decreases |filter| - r
    {
      r := Strspn(filter, ruleSep, r);
      if r == |filter| {
        break;
      }
      count := count + 1;
      r := Strcspn(filter, ruleSep, r);
    }
    assert filter[|filter|..] == [];
  }

  /** r += strspn(r, seps): separators make no token. */
  method Strspn(s: string, seps: string, r: nat) returns (r': nat)
    requires r <= |s|
    ensures r <= r' <= |s|
    ensures Tokens(s[r'..], seps) == Tokens(s[r..], seps)
    ensures r' < |s| ==> s[r'] !in seps
  {
    var t := s[r..];
    var skip := SpanIn(t, seps);
    SpanInSpec(t, seps);
    TokensSkip(t, seps, skip);
    assert t[skip..] == s[r + skip..];
    r' := r + skip;
  }

  /** r += strcspn(r, seps) at a non-separator: one token passed. */
  method Strcspn(s: string, seps: string, r: nat) returns (r': nat)
    requires r < |s| && s[r] !in seps
    ensures r < r' <= |s|
    ensures |Tokens(s[r..], seps)| == 1 + |Tokens(s[r'..], seps)|
  {
    var t := s[r..];
    TokensHeadToken(t, seps);
    var n := SpanNot(t, seps);
    assert t[n..] == s[r + n..];
    r' := r + n;
  }

  /**
   * strtok_r: the next token at or after pos, and the position the following
   * call resumes from.
   */
  method Strtok(s: string, seps: string, pos: nat) returns (token: Option<string>, next: nat)
    requires pos <= |s|
    ensures pos <= next <= |s|
    ensures token.None? ==> Tokens(s[pos..], seps) == []
    ensures token.Some? ==> Tokens(s[pos..], seps) == [token.value] + Tokens(s[next..], seps)
  {
    StrtokFromTokens(s, seps, pos);
    token, next := StrtokFrom(s, seps, pos).0, StrtokFrom(s, seps, pos).1;
  }

  /**
   * The token loop for one rule string: at most five tokens converted with
   * strtol, stopping at one that is not entirely a number; the rule is
   * accepted only with exactly five tokens and verified values.
   */
  method ParseOneRule(text: string, tokenSep: string) returns (rule: Option<Rule>)
    ensures rule == ParseRule(text, tokenSep)
  {
    ghost var toks := Tokens(text, tokenSep);
    ghost var vs := TokenValues(toks);
    // The C code parses straight into the zeroed rule, seen as five ints.
    var values := new int[5](_ => 0);
    var i := 0;
    var token, tpos := Strtok(text, tokenSep, 0);
    assert text[0..] == text;
    while i < 5 && token.Some?
      invariant i <= 5 && tpos <= |text| && i <= |toks|
      invariant token.Some? ==> toks[i..] == [token.value] + Tokens(text[tpos..], tokenSep)
      invariant token.None? ==> i == |toks|
      invariant ParsedPrefix(vs, values[..i])
    {
      assert toks[i] == token.value;
      var v := TokenValue(token.value);
      if v.None? {
        // *ep != '\0': the token is not entirely a number.
        break;
      }
      ParsedPrefixStep(vs, values[..i], v.value);
      values[i] := v.value;
      assert values[..i + 1] == values[..i] + [v.value];
      i := i + 1;
      ghost var rest := Tokens(text[tpos..], tokenSep);
      token, tpos := Strtok(text, tokenSep, tpos);
      if token.Some? {
        DropCons(toks, i, rest, token.value, Tokens(text[tpos..], tokenSep));
      }
    }
    var candidate := Rule(values[0], values[1], values[2], values[3], values[4]);
    assert i == 5 ==> values[..i] == [candidate.deviceClass, candidate.vendorId, candidate.productId,
                                      candidate.versionBcd, candidate.allow];
    if i != 5 || token.Some? || Verify([candidate]) != 0 {
      RuleRejected(vs, i, token.Some?, candidate);
      return None;
    }
    assert RuleValid([candidate][0]);
    return Some(candidate);
  }

  /** The three ways the token loop rejects a rule string. */
  lemma RuleRejected(vs: seq<Option<int>>, i: nat, more: bool, candidate: Rule)
    requires i <= 5 && i <= |vs|
    requires i < 5 && more ==> i < |vs| && vs[i].None?
    requires i < 5 && !more ==> i == |vs|
    requires i == 5 && more ==> |vs| > 5
    requires i == 5 && !more ==>
               (|vs| == 5 && vs[0] == Some(candidate.deviceClass) && vs[1] == Some(candidate.vendorId) &&
                vs[2] == Some(candidate.productId) && vs[3] == Some(candidate.versionBcd) &&
                vs[4] == Some(candidate.allow) && Verify([candidate]) != 0)
    ensures RuleFromValues(vs) == None
  {
    if i == 5 && !more {
      assert !RuleValid([candidate][0]);
    }
  }

  /**
   * usbredirfilter_string_to_rules: 0 and the parsed rules, or a negative
   * errno and no rules.
   */
  method StringToRules(filter: string, tokenSep: string, ruleSep: string) returns (ret: int, rules: seq<Rule>)
    ensures ret == 0 ==> ParseRules(filter, tokenSep, ruleSep) == Ok(rules)
    ensures ret != 0 ==> ParseRules(filter, tokenSep, ruleSep) == Err(ret) && rules == []
  {
    if |tokenSep| == 0 || |ruleSep| == 0 {
      return -EINVAL, [];
    }
    var count := CountRules(filter, ruleSep);
    // calloc: every rule starts as all zeroes.
    var arr := new Rule[count](_ => Rule(0, 0, 0, 0, 0));
    var ok := FillRules(filter, tokenSep, ruleSep, arr);
    if !ok {
      return -EINVAL, [];
    }
    return 0, arr[..];
  }

  /** The strtok_r loop over the rule strings, parsing each into arr. */
  method FillRules(filter: string, tokenSep: string, ruleSep: string, arr: array<Rule>) returns (ok: bool)
    requires arr.Length == |Tokens(filter, ruleSep)|
    modifies arr
    ensures ok ==> Collect(ParseEach(Tokens(filter, ruleSep), tokenSep)) == Ok(arr[..])
    ensures !ok ==> Collect(ParseEach(Tokens(filter, ruleSep), tokenSep)).Err?
  {
    ghost var texts := Tokens(filter, ruleSep);
    ghost var results := ParseEach(texts, tokenSep);
    ghost var parsed: seq<Rule> := [];
    var n := 0;
    var text, pos := Strtok(filter, ruleSep, 0);
    assert filter[0..] == filter;
    while text.Some?
      invariant pos <= |filter| && n <= |texts|
      invariant text.Some? ==> texts[n..] == [text.value] + Tokens(filter[pos..], ruleSep)
      invariant text.None? ==> n == |texts|
      invariant ParsedPrefix(results, parsed) && |parsed| == n && arr[..n] == parsed
      decreases |texts| - n
    {
      assert texts[n] == text.value;
      var rule := ParseOneRule(text.value, tokenSep);
      if rule.None? {
        assert results[n].None?;
        return false;
      }
      ParsedPrefixStep(results, parsed, rule.value);
      arr[n] := rule.value;
      parsed := parsed + [rule.value];
      n := n + 1;
      ghost var rest := Tokens(filter[pos..], ruleSep);
      text, pos := Strtok(filter, ruleSep, pos);
      if text.Some? {
        DropCons(texts, n, rest, text.value, Tokens(filter[pos..], ruleSep));
      }
    }
    assert arr[..] == parsed;
    AllParsed(results, parsed);
    return true;
  }

  /** The first results are the values converted so far. */
  predicate ParsedPrefix<T(==)>(results: seq<Option<T>>, parsed: seq<T>)
  {
    |parsed| <= |results| && forall k :: 0 <= k < |parsed| ==> results[k] == Some(parsed[k])
  }

  lemma ParsedPrefixStep<T>(results: seq<Option<T>>, parsed: seq<T>, r: T)
    requires ParsedPrefix(results, parsed) && |parsed| < |results| && results[|parsed|] == Some(r)
    ensures ParsedPrefix(results, parsed + [r])
  {
  }

  lemma DropCons<T>(xs: seq<T>, n: nat, rest: seq<T>, x: T, rest': seq<T>)
    requires 0 < n <= |xs| && xs[n - 1..] == [xs[n - 1]] + rest && rest == [x] + rest'
    ensures xs[n..] == [x] + rest'
  {
    assert xs[n..] == xs[n - 1..][1..];
  }

  lemma AllParsed(results: seq<Option<Rule>>, rules: seq<Rule>)
    requires ParsedPrefix(results, rules) && |results| == |rules|
    ensures Collect(results) == Ok(rules)
  {
    var c := Collect(results);
    assert c.Ok?;
    assert c.value == rules;
  }

  /** sprintf at p: writes text and a terminating NUL, returns the position of the NUL. */
  method Put(buf: array<char>, p: nat, text: string) returns (q: nat)
    requires p + |text| < buf.Length
    modifies buf
    ensures q == p + |text|
    ensures buf[..q] == old(buf[..p]) + text
    ensures buf[q] == '\0'
  {
    for k := 0 to |text|
      invariant buf[..p + k] == old(buf[..p]) + text[..k]
    {
      buf[p + k] := text[k];
      assert buf[..p + k + 1] == buf[..p + k] + [text[k]];
    }
    assert text[..|text|] == text;
    buf[p + |text|] := '\0';
    assert buf[..p + |text|] == old(buf[..p]) + text;
    q := p + |text|;
  }

  lemma RuleTextPieces(r: Rule, tc: char)
    requires RuleValid(r)
    ensures RuleText(r, tc) ==
              (FieldText(r.deviceClass, 2) + [tc]) + (FieldText(r.vendorId, 4) + [tc]) +
              (FieldText(r.productId, 4) + [tc]) + (FieldText(r.versionBcd, 4) + [tc]) + AllowText(r.allow)
  {
  }

  /** Consecutive sprintf calls writing t0 to t4. */
  method PutFive(buf: array<char>, p: nat, t0: string, t1: string, t2: string, t3: string, t4: string) returns (q: nat)
    requires p + |t0 + t1 + t2 + t3 + t4| < buf.Length
    modifies buf
    ensures q == p + |t0 + t1 + t2 + t3 + t4|
    ensures buf[..q] == old(buf[..p]) + (t0 + t1 + t2 + t3 + t4)
    ensures buf[q] == '\0'
  {
    ghost var start := buf[..p];
    q := Put(buf, p, t0);
    q := Put(buf, q, t1);
    assert buf[..q] == start + t0 + t1;
    q := Put(buf, q, t2);
    assert buf[..q] == start + t0 + t1 + t2;
    q := Put(buf, q, t3);
    assert buf[..q] == start + t0 + t1 + t2 + t3;
    q := Put(buf, q, t4);
    assert buf[..q] == start + t0 + t1 + t2 + t3 + t4;
    assert start + t0 + t1 + t2 + t3 + t4 == start + (t0 + t1 + t2 + t3 + t4);
  }

  /** The five sprintf calls printing one rule. */
  method PutRule(buf: array<char>, p: nat, r: Rule, tc: char) returns (q: nat)
    requires RuleValid(r) && p + |RuleText(r, tc)| < buf.Length
    modifies buf
    ensures q == p + |RuleText(r, tc)|
    ensures buf[..q] == old(buf[..p]) + RuleText(r, tc)
    ensures buf[q] == '\0'
  {
    RuleTextPieces(r, tc);
    q := PutFive(buf, p, FieldText(r.deviceClass, 2) + [tc], FieldText(r.vendorId, 4) + [tc],
                 FieldText(r.productId, 4) + [tc], FieldText(r.versionBcd, 4) + [tc], AllowText(r.allow));
  }

  /** The worst case the buffer is sized for: 27 characters a rule. */
  lemma RuleTextLength(r: Rule, tc: char)
    requires RuleValid(r)
    ensures |RuleText(r, tc)| <= 27
  {
  }

  lemma FormatRulesHead(rules: seq<Rule>, tc: char, rc: char)
    requires AllValid(rules) && |rules| > 0
    ensures AllValid(rules[1..])
    ensures FormatRules(rules, tc, rc) ==
              RuleText(rules[0], tc) + (if |rules| > 1 then [rc] + FormatRules(rules[1..], tc, rc) else "")
  {
  }

  lemma FormatRulesStep(rules: seq<Rule>, i: nat, tc: char, rc: char)
    requires AllValid(rules) && i < |rules|
    ensures AllValid(rules[i..]) && AllValid(rules[i + 1..])
    ensures FormatRules(rules[i..], tc, rc) ==
              RuleText(rules[i], tc) + (if i < |rules| - 1 then [rc] + FormatRules(rules[i + 1..], tc, rc) else "")
  {
    var tail := rules[i..];
    assert tail[1..] == rules[i + 1..];
    assert tail[0] == rules[i];
    FormatRulesHead(tail, tc, rc);
  }

  lemma AppendStep(before: string, text: string, rc: char, rest: string)
    ensures (before + text + [rc]) + rest == before + (text + ([rc] + rest))
  {
  }

  /**
   * usbredirfilter_rules_to_string: NULL for rules failing verification or an
   * empty separator, otherwise the printed rules, which fit the 28 bytes a
   * rule (plus NUL) the buffer is allocated with.
   */
  method RulesToString(rules: seq<Rule>, tokenSep: string, ruleSep: string) returns (str: Option<string>)
    ensures str == PrintedRules(rules, tokenSep, ruleSep)
    ensures str.Some? ==> |str.value| <= 28 * |rules|
  {
    if Verify(rules) != 0 {
      return None;
    }
    if |tokenSep| == 0 || |ruleSep| == 0 {
      return None;
    }
    var tc, rc := tokenSep[0], ruleSep[0];
    var buf := new char[28 * |rules| + 1];
    var p: nat := 0;
    for i := 0 to |rules|
      invariant p <= 28 * i && buf.Length == 28 * |rules| + 1
      invariant AllValid(rules[i..])
      invariant buf[..p] + FormatRules(rules[i..], tc, rc) == FormatRules(rules, tc, rc)
    {
      var ri := rules[i];
      FormatRulesStep(rules, i, tc, rc);
      RuleTextLength(ri, tc);
      ghost var before := buf[..p];
      p := PutRule(buf, p, ri, tc);
      if i < |rules| - 1 {
        ghost var mid := buf[..p];
        p := Put(buf, p, [rc]);
        assert buf[..p] == mid + [rc];
        AppendStep(before, RuleText(ri, tc), rc, FormatRules(rules[i + 1..], tc, rc));
      } else {
        assert rules[i + 1..] == [];
      }
    }
    assert rules[|rules|..] == [];
    ghost var out := buf[..p];
    assert out == FormatRules(rules, tc, rc);
    buf[p] := '\0';
    assert buf[..p] == out;
    return Some(buf[..p]);
  }
}
