/**
 * Key extraction from one line of `player_variables.scr`: the regular
 * expression `^\s*Param\s*\(\s*"([^"]+)"` searched from the start of the line,
 * written out as a matcher over characters.
 */
module ParamLine {
  import opened Wrappers
  import opened Text

  /** The first `"` at or after `i`, or `|s|`: the greedy `[^"]+` run ends there. */
  function SkipKeyChars(s: string, i: nat): (r: nat)
    requires i <= |s|
    ensures i <= r <= |s|
    ensures forall j :: i <= j < r ==> s[j] != '"'
    ensures r == |s| || s[r] == '"'
    decreases |s| - i
  {
    if i < |s| && s[i] != '"' then SkipKeyChars(s, i + 1) else i
  }

  /** The word `Param` starts at index `i` of `line`. */
  predicate ParamAt(line: string, i: nat) {
    && i + 5 <= |line|
    && line[i] == 'P' && line[i + 1] == 'a' && line[i + 2] == 'r' && line[i + 3] == 'a' && line[i + 4] == 'm'
  }

  lemma ParamAtSlice(line: string, i: nat)
    ensures ParamAt(line, i) <==> i + 5 <= |line| && line[i..i + 5] == "Param"
  {
    if i + 5 <= |line| && line[i..i + 5] == "Param" {
      forall m | 0 <= m < 5 ensures line[i + m] == "Param"[m] {
        assert line[i..i + 5][m] == line[i + m];
      }
    }
  }

  /** Where the matcher stands in the pattern. */
  datatype Stage =
    | Lead                  // in `^\s*`, before `Param`
    | BeforeParen           // in the `\s*` after `Param`
    | BeforeQuote           // in the `\s*` after `(`
    | InKey(start: nat)     // in `[^"]+`, the key having begun at `start`

  /** The matcher at index `i` of `line` in stage `stage`. */
  function MatchFrom(line: string, i: nat, stage: Stage): Option<string>
    requires i <= |line|
    decreases |line| - i
  {
    if i == |line| then None
    else match stage
      case Lead =>
        if IsSpace(line[i]) then MatchFrom(line, i + 1, Lead)
        else if ParamAt(line, i) then MatchFrom(line, i + 5, BeforeParen)
        else None
      case BeforeParen =>
        if IsSpace(line[i]) then MatchFrom(line, i + 1, BeforeParen)
        else if line[i] == '(' then MatchFrom(line, i + 1, BeforeQuote)
        else None
      case BeforeQuote =>
        if IsSpace(line[i]) then MatchFrom(line, i + 1, BeforeQuote)
        else if line[i] == '"' then MatchFrom(line, i + 1, InKey(i + 1))
        else None
      case InKey(start) =>
        if line[i] != '"' then MatchFrom(line, i + 1, InKey(start))
        else if start < i then Some(line[start..i])
        else None
  }

  /**
   * `get_param_key(line)`. Leading whitespace, the word `Param`, whitespace,
   * `(`, whitespace, a quote, then at least one non-quote character up to a
   * closing quote; the characters between the quotes are the key. Whatever
   * follows the closing quote is not examined.
   */
  function GetParamKey(line: string): Option<string> {
    MatchFrom(line, 0, Lead)
  }

  // The same matcher written with the greedy scans of the pattern's parts.

  /** From `i` on, the key begun at `start` runs to the next quote, which must exist. */
  ghost function ScanInKey(line: string, start: nat, i: nat): Option<string>
    requires start <= i <= |line|
  {
    var d := SkipKeyChars(line, i);
    if start < d < |line| then Some(line[start..d]) else None
  }

  /** Whitespace, then the opening quote. */
  ghost function ScanQuote(line: string, i: nat): Option<string>
    requires i <= |line|
  {
    var c := SkipSpace(line, i);
    if c < |line| && line[c] == '"' then ScanInKey(line, c + 1, c + 1) else None
  }

  /** Whitespace, then the opening parenthesis. */
  ghost function ScanParen(line: string, i: nat): Option<string>
    requires i <= |line|
  {
    var b := SkipSpace(line, i);
    if b < |line| && line[b] == '(' then ScanQuote(line, b + 1) else None
  }

  /** Whitespace, then the word `Param`. */
  ghost function ScanLead(line: string, i: nat): Option<string>
    requires i <= |line|
  {
    var a := SkipSpace(line, i);
    if ParamAt(line, a) then ScanParen(line, a + 5) else None
  }

  ghost function ScanKey(line: string): Option<string> {
    ScanLead(line, 0)
  }

  lemma {:induction false} InKeyScan(line: string, start: nat, i: nat)
    requires start <= i <= |line|
    ensures MatchFrom(line, i, InKey(start)) == ScanInKey(line, start, i)
    decreases |line| - i
  {
    if i < |line| && line[i] != '"' { InKeyScan(line, start, i + 1); }
  }

  lemma {:induction false} BeforeQuoteScan(line: string, i: nat)
    requires i <= |line|
    ensures MatchFrom(line, i, BeforeQuote) == ScanQuote(line, i)
    decreases |line| - i
  {
    if i < |line| && IsSpace(line[i]) {
      BeforeQuoteScan(line, i + 1);
    } else if i < |line| && line[i] == '"' {
      InKeyScan(line, i + 1, i + 1);
    }
  }

  lemma {:induction false} BeforeParenScan(line: string, i: nat)
    requires i <= |line|
    ensures MatchFrom(line, i, BeforeParen) == ScanParen(line, i)
    decreases |line| - i
  {
    if i < |line| && IsSpace(line[i]) {
      BeforeParenScan(line, i + 1);
    } else if i < |line| && line[i] == '(' {
      BeforeQuoteScan(line, i + 1);
    }
  }

  lemma {:induction false} LeadScan(line: string, i: nat)
    requires i <= |line|
    ensures MatchFrom(line, i, Lead) == ScanLead(line, i)
    decreases |line| - i
  {
    if i < |line| && IsSpace(line[i]) {
      LeadScan(line, i + 1);
    } else if ParamAt(line, i) {
      BeforeParenScan(line, i + 5);
    }
  }

  /** The character-by-character matcher and the scan form compute the same key. */
  lemma GetParamKeyIsScan(line: string)
    ensures GetParamKey(line) == ScanKey(line)
  {
    LeadScan(line, 0);
  }

  /** A non-empty key with no quote in it: what `([^"]+)` can capture. */
  predicate IsKeyText(key: string) {
    |key| > 0 && '"' !in key
  }

  /**
   * The pattern matches `line` with `Param` at `p`, the parenthesis at `o`
   * and the opening quote at `q`: only whitespace before `p`, between `Param`
   * and `(`, and between `(` and the quote; then `key` and a closing quote.
   */
  ghost predicate MatchesAt(line: string, key: string, p: nat, o: nat, q: nat) {
    && p + 5 <= o < q
    && q + |key| + 1 < |line|
    && SpaceBetween(line, 0, p)
    && line[p..p + 5] == "Param"
    && SpaceBetween(line, p + 5, o)
    && line[o] == '('
    && SpaceBetween(line, o + 1, q)
    && line[q] == '"'
    && line[q + 1..q + 1 + |key|] == key
    && line[q + 1 + |key|] == '"'
  }

  /** The declaration pattern matches `line` and captures `key`. */
  ghost predicate Matches(line: string, key: string) {
    IsKeyText(key) && exists p, o, q :: MatchesAt(line, key, p, o, q)
  }

  lemma SkipSpaceAt(s: string, i: nat, j: nat)
    requires i <= j <= |s|
    requires forall m :: i <= m < j ==> IsSpace(s[m])
    requires j == |s| || !IsSpace(s[j])
    ensures SkipSpace(s, i) == j
  {
  }

  lemma SkipKeyCharsAt(s: string, i: nat, j: nat)
    requires i <= j < |s|
    requires forall m :: i <= m < j ==> s[m] != '"'
    requires s[j] == '"'
    ensures SkipKeyChars(s, i) == j
  {
  }

  /** A key the extractor returns is one the pattern captures. */
  lemma GetParamKeySound(line: string, key: string)
    requires GetParamKey(line) == Some(key)
    ensures Matches(line, key)
  {
    GetParamKeyIsScan(line);
    ScanKeySound(line, key);
  }

  lemma ScanKeySound(line: string, key: string)
    requires ScanKey(line) == Some(key)
    ensures Matches(line, key)
  {
    var p := SkipSpace(line, 0);
    assert ParamAt(line, p);
    var o := SkipSpace(line, p + 5);
    assert o < |line| && line[o] == '(';
    var q := SkipSpace(line, o + 1);
    assert q < |line| && line[q] == '"';
    var d := SkipKeyChars(line, q + 1);
    assert q + 1 < d < |line| && key == line[q + 1..d];
    PartsMatch(line, key, p, o, q);
  }

  /** The parts the scans find form a match of the pattern. */
  lemma PartsMatch(line: string, key: string, p: nat, o: nat, q: nat)
    requires p + 5 <= o < q < |line| && ParamAt(line, p) && line[o] == '(' && line[q] == '"'
    requires SkipSpace(line, 0) == p && SkipSpace(line, p + 5) == o && SkipSpace(line, o + 1) == q
    requires q + 1 < SkipKeyChars(line, q + 1) < |line| && key == line[q + 1..SkipKeyChars(line, q + 1)]
    ensures Matches(line, key)
  {
    var d := SkipKeyChars(line, q + 1);
    assert d == q + 1 + |key|;
    MatchesAtIntro(line, key, p, o, q);
  }

  /** A quote-free key placed as `MatchesAt` describes is a match. */
  lemma MatchesAtIntro(line: string, key: string, p: nat, o: nat, q: nat)
    requires p + 5 <= o < q && q + |key| + 1 < |line| && |key| > 0
    requires ParamAt(line, p) && line[o] == '(' && line[q] == '"' && line[q + 1 + |key|] == '"'
    requires SpaceBetween(line, 0, p) && SpaceBetween(line, p + 5, o) && SpaceBetween(line, o + 1, q)
    requires key == line[q + 1..q + 1 + |key|]
    requires forall m :: q + 1 <= m < q + 1 + |key| ==> line[m] != '"'
    ensures Matches(line, key)
  {
    ParamAtSlice(line, p);
    forall m | 0 <= m < |key| ensures key[m] != '"' {
      assert key[m] == line[q + 1 + m];
    }
    assert MatchesAt(line, key, p, o, q);
  }

  /** Where a match places its parts is where the extractor's scans stop. */
  lemma MatchesAtScans(line: string, key: string, p: nat, o: nat, q: nat)
    requires IsKeyText(key) && MatchesAt(line, key, p, o, q)
    ensures SkipSpace(line, 0) == p
    ensures SkipSpace(line, p + 5) == o
    ensures SkipSpace(line, o + 1) == q
    ensures SkipKeyChars(line, q + 1) == q + 1 + |key|
  {
    ParamAtSlice(line, p);
    SkipSpaceAt(line, 0, p);
    SkipSpaceAt(line, p + 5, o);
    SkipSpaceAt(line, o + 1, q);
    var d := q + 1 + |key|;
    forall m | q + 1 <= m < d ensures line[m] != '"' { assert line[q + 1..d][m - q - 1] == line[m]; }
    SkipKeyCharsAt(line, q + 1, d);
  }

  /** The scans' stopping points give back the captured key. */
  lemma GetParamKeyAt(line: string, key: string, p: nat, o: nat, q: nat)
    requires p + 5 <= o < q && q + |key| + 1 < |line|
    requires line[p..p + 5] == "Param" && line[o] == '(' && line[q] == '"'
    requires line[q + 1..q + 1 + |key|] == key && |key| > 0
    requires SkipSpace(line, 0) == p && SkipSpace(line, p + 5) == o && SkipSpace(line, o + 1) == q
    requires SkipKeyChars(line, q + 1) == q + 1 + |key|
    ensures GetParamKey(line) == Some(key)
  {
    ScanKeyAt(line, key, p, o, q);
    GetParamKeyIsScan(line);
  }

  lemma ScanKeyAt(line: string, key: string, p: nat, o: nat, q: nat)
    requires p + 5 <= o < q && q + |key| + 1 < |line|
    requires line[p..p + 5] == "Param" && line[o] == '(' && line[q] == '"'
    requires line[q + 1..q + 1 + |key|] == key && |key| > 0
    requires SkipSpace(line, 0) == p && SkipSpace(line, p + 5) == o && SkipSpace(line, o + 1) == q
    requires SkipKeyChars(line, q + 1) == q + 1 + |key|
    ensures ScanKey(line) == Some(key)
  {
    ParamAtSlice(line, p);
  }

  /** A key the pattern captures is the one the extractor returns. */
  lemma GetParamKeyComplete(line: string, key: string)
    requires Matches(line, key)
    ensures GetParamKey(line) == Some(key)
  {
    var p: nat, o: nat, q: nat :| MatchesAt(line, key, p, o, q);
    MatchesAtScans(line, key, p, o, q);
    GetParamKeyAt(line, key, p, o, q);
  }

  /**
   * The extractor and the pattern agree on every line and every key: it returns
   * `Some(key)` exactly when the pattern matches with that capture, and `None`
   * exactly when the pattern does not match at all.
   */
  lemma GetParamKeyIsPattern(line: string)
    ensures forall key :: GetParamKey(line) == Some(key) <==> Matches(line, key)
    ensures GetParamKey(line) == None <==> forall key :: !Matches(line, key)
  {
    forall key
      ensures GetParamKey(line) == Some(key) <==> Matches(line, key)
    {
      if GetParamKey(line) == Some(key) { GetParamKeySound(line, key); }
      if Matches(line, key) { GetParamKeyComplete(line, key); }
    }
    if GetParamKey(line).Some? {
      GetParamKeySound(line, GetParamKey(line).value);
    }
  }

  /** What the caller relies on: a returned key is non-empty and holds no quote. */
  lemma GetParamKeyShape(line: string)
    ensures GetParamKey(line).Some? ==> IsKeyText(GetParamKey(line).value)
  {
    if GetParamKey(line).Some? {
      GetParamKeySound(line, GetParamKey(line).value);
    }
  }
}
