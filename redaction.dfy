/**
 * Log redaction of `SensitiveFormatter.format` (technisync/utils.py). The
 * formatter rewrites the formatted log line with `re.sub` twice: first the
 * pattern `token=[^&\s]+`, then `api_key=[^&\s]+`, each time replacing a match
 * by the key followed by `[REDACTED]`.
 *
 * `re.sub` scans left to right; at each position it takes a match if the key
 * starts there and at least one value character (anything but `&` and
 * whitespace) follows, consuming the longest such run, and otherwise copies
 * one character and moves on.
 */
module Redaction {
  import opened Strings

  const Redacted: string := "[REDACTED]"

  /** The keys of the two patterns, in the order the formatter applies them. */
  const Keys: seq<string> := ["token=", "api_key="]

  /** A character of `[^&\s]`. */
  predicate IsValueChar(c: char) { c != '&' && !IsSpace(c) }

  /** The length of the longest run of value characters at the start of `s`. */
  function Run(s: string): (n: nat)
    ensures n <= |s|
  {
    RunFrom(s, 0)
  }

  /** The end of the run of value characters that starts at `i`. */
  function RunFrom(s: string, i: nat): (n: nat)
    requires i <= |s|
    ensures i <= n <= |s|
    decreases |s| - i
  {
    if i < |s| && IsValueChar(s[i]) then RunFrom(s, i + 1) else i
  }

  /** The run is all value characters, and whatever follows it is not one. */
  lemma RunSpec(s: string)
    ensures forall i :: 0 <= i < Run(s) ==> IsValueChar(s[i])
    ensures Run(s) == |s| || !IsValueChar(s[Run(s)])
  {
    RunFromSpec(s, 0);
  }

  lemma {:induction false} RunFromSpec(s: string, i: nat)
    requires i <= |s|
    ensures forall k :: i <= k < RunFrom(s, i) ==> IsValueChar(s[k])
    ensures RunFrom(s, i) == |s| || !IsValueChar(s[RunFrom(s, i)])
    decreases |s| - i
  {
    if i < |s| && IsValueChar(s[i]) {
      RunFromSpec(s, i + 1);
    }
  }

  /** The pattern `key[^&\s]+` matches at the start of `s`. */
  predicate MatchAt(s: string, key: string) {
    StartsWith(s, key) && |key| < |s| && IsValueChar(s[|key|])
  }

  /** `re.sub(key + r'[^&\s]+', key + '[REDACTED]', s)`. */
  function Sub(key: string, s: string): string
    decreases |s|
  {
    if s == [] then []
    else if MatchAt(s, key) then key + Redacted + Sub(key, s[|key| + Run(s[|key|..])..])
    else [s[0]] + Sub(key, s[1..])
  }

  /** Both substitutions, in the formatter's order. */
  function ApplyKeys(keys: seq<string>, s: string): string
    decreases |keys|
  {
    if keys == [] then s else Sub(keys[|keys| - 1], ApplyKeys(keys[..|keys| - 1], s))
  }

  /**
   * `SensitiveFormatter.format` once the base formatter has produced
   * `message`: the loop over the patterns, reassigning the message each time.
   */
  method FormatMessage(message: string) returns (r: string)
    ensures r == Sub("api_key=", Sub("token=", message))
    ensures forall k :: k in Keys ==> Clean(k, r)
  {
    r := message;
    for i := 0 to |Keys|
      invariant r == ApplyKeys(Keys[..i], message)
    {
      assert Keys[..i + 1][..i] == Keys[..i];
      r := Sub(Keys[i], r);
    }
    assert Keys[..2] == Keys;
    FormatClean(message);
  }

  /** What the redaction needs of a key: it starts with a value character that occurs nowhere else in the key or in `[REDACTED]`. */
  predicate KeyShape(key: string) {
    |key| >= 1 && IsValueChar(key[0]) && key[0] !in key[1..] && key[0] !in Redacted
  }

  lemma KeysHaveShape()
    ensures KeyShape("token=") && KeyShape("api_key=")
    ensures "token="[0] !in "api_key=" && "api_key="[0] !in "token="
  {
  }

  lemma RedactedIsValue()
    ensures forall i :: 0 <= i < |Redacted| ==> IsValueChar(Redacted[i])
  {
  }

  /**
   * Every place where the key is followed by a value character is the key
   * followed by exactly `[REDACTED]`: no other value survives after a key.
   */
  predicate Clean(key: string, o: string) {
    forall i :: 0 <= i < |o| && MatchAt(o[i..], key) ==>
      StartsWith(o[i + |key|..], Redacted) && Run(o[i + |key|..]) == |Redacted|
  }

  // ---------------------------------------------------------------------
  // Helpers about runs and matches

  /** A run of value characters followed by a non-value character (or nothing) has exactly that length. */
  lemma RunAppend(v: string, w: string)
    requires forall i :: 0 <= i < |v| ==> IsValueChar(v[i])
    requires w == [] || !IsValueChar(w[0])
    ensures Run(v + w) == |v|
  {
    RunFromAppend(v, w, 0);
  }

  lemma {:induction false} RunFromAppend(v: string, w: string, i: nat)
    requires i <= |v|
    requires forall i :: 0 <= i < |v| ==> IsValueChar(v[i])
    requires w == [] || !IsValueChar(w[0])
    ensures RunFrom(v + w, i) == |v|
    decreases |v| - i
  {
    if i < |v| {
      assert (v + w)[i] == v[i];
      RunFromAppend(v, w, i + 1);
    } else if w != [] {
      assert (v + w)[i] == w[0];
    }
  }

  /** The least position below `n` where the pattern matches, or `n` if there is none. */
  function FirstMatch(key: string, u: string, n: nat): (j: nat)
    requires n <= |u|
    ensures j <= n
    ensures forall i :: 0 <= i < j ==> !MatchAt(u[i..], key)
    ensures j < n ==> MatchAt(u[j..], key)
    decreases n
  {
    if n == 0 then 0
    else
      var j := FirstMatch(key, u, n - 1);
      if j < n - 1 then j else if MatchAt(u[n - 1..], key) then n - 1 else n
  }

  /** Before the first match, the substitution copies the text unchanged. */
  lemma {:induction false} CopyPrefix(key: string, u: string, m: nat)
    requires m <= |u|
    requires forall i :: 0 <= i < m ==> !MatchAt(u[i..], key)
    ensures Sub(key, u) == u[..m] + Sub(key, u[m..])
    decreases m
  {
    if m > 0 {
      assert !MatchAt(u[0..], key);
      assert u[0..] == u;
      forall i | 0 <= i < m - 1 ensures !MatchAt(u[1..][i..], key) {
        assert u[1..][i..] == u[i + 1..];
      }
      CopyPrefix(key, u[1..], m - 1);
      assert Sub(key, u) == [u[0]] + Sub(key, u[1..]);
      assert u[1..][m - 1..] == u[m..];
      assert [u[0]] + u[1..][..m - 1] == u[..m];
      ConsAssoc(u[0], u[1..][..m - 1], Sub(key, u[m..]));
    }
  }

  /**
   * Where the text does not match, neither does the redacted text: copying
   * the first character and redacting the rest cannot create a new match.
   */
  lemma NoNewMatch(key: string, s: string)
    requires KeyShape(key) && s != [] && !MatchAt(s, key)
    ensures !MatchAt([s[0]] + Sub(key, s[1..]), key)
  {
    var j, tail := SplitAtFirstMatch(key, s, |key|);
    NoNewMatchCases(key, s, j, tail);
  }

  /**
   * Copying the first character and redacting the rest, cut at the first
   * match of the rest within `w` characters: the text up to there is copied
   * and what follows starts with the key (or is empty at the end of the text).
   */
  lemma SplitAtFirstMatch(key: string, s: string, w: nat) returns (j: nat, tail: string)
    requires s != []
    ensures j < |s| && j <= w
    ensures [s[0]] + Sub(key, s[1..]) == s[..j + 1] + tail
    ensures j == |s| - 1 ==> tail == []
    ensures j < w && j < |s| - 1 ==> MatchAt(s[j + 1..], key) && StartsWith(tail, key)
  {
    var u := s[1..];
    var bound := if w < |u| then w else |u|;
    j := FirstMatch(key, u, bound);
    CopyPrefix(key, u, j);
    tail := Sub(key, u[j..]);
    assert Sub(key, u) == u[..j] + tail;
    assert [s[0]] + u[..j] == s[..j + 1];
    ConsAssoc(s[0], u[..j], tail);
    assert u[j..] == s[j + 1..];
    if j < bound {
      MatchStartsWithKey(key, u[j..]);
    }
    if j == |u| {
      assert u[j..] == [];
    }
  }

  lemma ConsAssoc(c: char, x: string, y: string)
    ensures [c] + (x + y) == ([c] + x) + y
  {
  }

  lemma MatchStartsWithKey(key: string, t: string)
    requires MatchAt(t, key)
    ensures StartsWith(Sub(key, t), key)
  {
    var rest := Sub(key, t[|key| + Run(t[|key|..])..]);
    assert Sub(key, t) == key + Redacted + rest;
    StartsWithConcat(key, Redacted, rest);
  }

  lemma StartsWithConcat(a: string, b: string, c: string)
    ensures StartsWith(a + b + c, a)
  {
    assert (a + b + c)[..|a|] == a;
  }

  lemma NoNewMatchCases(key: string, s: string, j: nat, tail: string)
    requires KeyShape(key) && s != [] && !MatchAt(s, key)
    requires j <= |key| && j < |s|
    requires j == |s| - 1 ==> tail == []
    requires j < |key| && j < |s| - 1 ==> MatchAt(s[j + 1..], key) && StartsWith(tail, key)
    ensures !MatchAt(s[..j + 1] + tail, key)
  {
    var o := s[..j + 1] + tail;
    if j == |s| - 1 {
      assert o == s;
    } else if j == |key| {
      assert o[..|key|] == s[..|key|];
      assert o[|key|] == s[|key|];
    } else if j + 1 < |key| {
      assert o[j + 1] == tail[0] == key[0];
      assert key[1..][j] == key[j + 1];
    } else {
      assert o[..|key|] == s[..|key|];
      assert o[|key|] == tail[0] == key[0] == s[|key|];
    }
  }

  /** A text whose occurrences of the key are all already redacted is left unchanged. */
  lemma {:induction false} CleanFixed(key: string, s: string)
    requires KeyShape(key) && Clean(key, s)
    ensures Sub(key, s) == s
    decreases |s|
  {
    if s != [] {
      CleanSuffix(key, s, 1);
      assert s[0..] == s;
      if MatchAt(s, key) {
        assert StartsWith(s[|key|..], Redacted) && Run(s[|key|..]) == |Redacted|;
        var rest := |key| + |Redacted|;
        assert s[..|key|] == key && s[|key|..][..|Redacted|] == Redacted;
        assert s[..rest] == key + Redacted;
        CleanSuffix(key, s, rest);
        CleanFixed(key, s[rest..]);
        assert s == s[..rest] + s[rest..];
      } else {
        CleanFixed(key, s[1..]);
      }
    }
  }

  lemma CleanSuffix(key: string, s: string, d: nat)
    requires d <= |s| && Clean(key, s)
    ensures Clean(key, s[d..])
  {
    forall i | 0 <= i < |s[d..]| && MatchAt(s[d..][i..], key)
      ensures StartsWith(s[d..][i + |key|..], Redacted) && Run(s[d..][i + |key|..]) == |Redacted|
    {
      assert s[d..][i..] == s[d + i..];
      assert s[d..][i + |key|..] == s[d + i + |key|..];
    }
  }

  /** Occurrences in `w` are occurrences at a shifted position in `p + w`. */
  lemma CleanPrefixed(key: string, p: string, w: string)
    requires Clean(key, w)
    requires forall i :: 0 <= i < |p| ==> !MatchAt((p + w)[i..], key)
    ensures Clean(key, p + w)
  {
    var o := p + w;
    forall i | 0 <= i < |o| && MatchAt(o[i..], key)
      ensures StartsWith(o[i + |key|..], Redacted) && Run(o[i + |key|..]) == |Redacted|
    {
      assert o[i..] == w[i - |p|..];
      assert o[i + |key|..] == w[i - |p| + |key|..];
    }
  }

  // ---------------------------------------------------------------------
  // Properties of one substitution

  /** After the substitution no value follows the key except `[REDACTED]`. */
  lemma {:induction false} SubClean(key: string, s: string)
    requires KeyShape(key)
    ensures Clean(key, Sub(key, s))
    decreases |s|
  {
    if s != [] {
      if MatchAt(s, key) {
        var t := s[|key| + Run(s[|key|..])..];
        SubClean(key, t);
        SubCleanAtMatch(key, s, t);
      } else {
        SubClean(key, s[1..]);
        SubCleanElsewhere(key, s);
      }
    }
  }

  /** At a match: the key, `[REDACTED]`, then the clean redaction of what follows the value. */
  lemma SubCleanAtMatch(key: string, s: string, t: string)
    requires KeyShape(key) && MatchAt(s, key)
    requires t == s[|key| + Run(s[|key|..])..] && Clean(key, Sub(key, t))
    ensures Clean(key, Sub(key, s))
  {
    RunSpec(s[|key|..]);
    if t != [] { assert t[0] == s[|key|..][Run(s[|key|..])]; }
    var head := key + Redacted;
    var o := head + Sub(key, t);
    SubAtMatch(key, s);
    SubHead(key, t);
    forall i | 0 < i < |head| ensures !MatchAt(o[i..], key) {
      if i < |key| { assert o[i] == key[1..][i - 1]; }
      else { assert o[i] == Redacted[i - |key|]; }
    }
    assert o[0..] == o;
    RedactedIsValue();
    assert o[|key|..] == Redacted + Sub(key, t);
    RunAppend(Redacted, Sub(key, t));
    CleanAfterHead(key, o, head, Sub(key, t));
  }

  /** Where nothing matches: the first character, then the clean redaction of the rest. */
  lemma SubCleanElsewhere(key: string, s: string)
    requires KeyShape(key) && s != [] && !MatchAt(s, key) && Clean(key, Sub(key, s[1..]))
    ensures Clean(key, Sub(key, s))
  {
    NoNewMatch(key, s);
    var o := [s[0]] + Sub(key, s[1..]);
    assert Sub(key, s) == o;
    assert o[0..] == o;
    CleanPrefixed(key, [s[0]], Sub(key, s[1..]));
  }

  /** A text that starts with a character the key cannot start with keeps that character first. */
  lemma SubHead(key: string, t: string)
    requires KeyShape(key)
    requires t == [] || !IsValueChar(t[0])
    ensures t == [] ==> Sub(key, t) == []
    ensures t != [] ==> Sub(key, t) != [] && Sub(key, t)[0] == t[0]
  {
  }

  lemma CleanAfterHead(key: string, o: string, head: string, w: string)
    requires o == head + w && head == key + Redacted && Clean(key, w)
    requires forall i :: 0 < i < |head| ==> !MatchAt(o[i..], key)
    requires StartsWith(o[|key|..], Redacted) && Run(o[|key|..]) == |Redacted|
    ensures Clean(key, o)
  {
    forall i | 0 <= i < |o| && MatchAt(o[i..], key)
      ensures StartsWith(o[i + |key|..], Redacted) && Run(o[i + |key|..]) == |Redacted|
    {
      if i >= |head| {
        assert o[i..] == w[i - |head|..];
        assert o[i + |key|..] == w[i - |head| + |key|..];
      }
    }
  }

  /** The substitution is idempotent. */
  lemma SubIdempotent(key: string, s: string)
    requires KeyShape(key)
    ensures Sub(key, Sub(key, s)) == Sub(key, s)
  {
    SubClean(key, s);
    CleanFixed(key, Sub(key, s));
  }

  /**
   * A secret after the key is replaced: when the first match is at `|a|`,
   * with value `v` ending at `b` (empty, or starting with `&` or
   * whitespace), the text before is copied, the key is kept, `v` becomes
   * `[REDACTED]` and the redaction carries on with `b`.
   */
  lemma SecretReplaced(key: string, a: string, v: string, b: string)
    requires forall i :: 0 <= i < |a| ==> !MatchAt((a + key + v + b)[i..], key)
    requires v != [] && forall i :: 0 <= i < |v| ==> IsValueChar(v[i])
    requires b == [] || !IsValueChar(b[0])
    ensures Sub(key, a + key + v + b) == a + key + Redacted + Sub(key, b)
  {
    var s := a + key + v + b;
    assert s[..|a|] == a;
    assert s[|a|..] == key + v + b;
    CopyPrefix(key, s, |a|);
    MatchReplaced(key, v, b);
    Associative(a, key, Redacted, Sub(key, b));
  }

  lemma Associative(a: string, b: string, c: string, d: string)
    ensures a + (b + c + d) == a + b + c + d
  {
  }

  lemma MatchReplaced(key: string, v: string, b: string)
    requires v != [] && forall i :: 0 <= i < |v| ==> IsValueChar(v[i])
    requires b == [] || !IsValueChar(b[0])
    ensures Sub(key, key + v + b) == key + Redacted + Sub(key, b)
  {
    var t := key + v + b;
    MatchedText(key, v, b, t);
    RunAppend(v, b);
    SubAtMatch(key, t);
  }

  /** The pieces of a key followed by a non-empty value and the rest. */
  lemma MatchedText(key: string, v: string, b: string, t: string)
    requires v != [] && IsValueChar(v[0]) && t == key + v + b
    ensures MatchAt(t, key) && t[|key|..] == v + b && t[|key| + |v|..] == b
  {
    assert t[..|key|] == key && t[|key|] == v[0];
  }

  /** Where the pattern matches, the key and `[REDACTED]` replace the key and its value. */
  lemma SubAtMatch(key: string, t: string)
    requires MatchAt(t, key)
    ensures Sub(key, t) == key + Redacted + Sub(key, t[|key| + Run(t[|key|..])..])
  {
  }

  /** A key followed by `&`, whitespace or nothing is left as it is. */
  lemma EmptyValueKept(key: string, b: string)
    requires KeyShape(key)
    requires b == [] || !IsValueChar(b[0])
    ensures Sub(key, key + b) == key + Sub(key, b)
  {
    var s := key + b;
    forall i | 0 <= i < |key| ensures !MatchAt(s[i..], key) {
      if i > 0 { assert s[i] == key[1..][i - 1]; }
      else { assert s[0..] == s; }
    }
    CopyPrefix(key, s, |key|);
    assert s[..|key|] == key && s[|key|..] == b;
  }

  /** A text in which the key does not occur is unchanged. */
  lemma NoKeyUnchanged(key: string, s: string)
    requires forall i :: 0 <= i <= |s| ==> !StartsWith(s[i..], key)
    ensures Sub(key, s) == s
  {
    CopyPrefix(key, s, |s|);
    assert s[..|s|] == s;
  }

  /**
   * The api_key pass keeps the token pass's work: where every token value
   * was already redacted, it still is after the second substitution.
   */
  lemma {:induction false} CleanPreserved(k1: string, k2: string, s: string)
    requires KeyShape(k1) && KeyShape(k2)
    requires k1[0] !in k2 && k2[0] !in k1
    requires Clean(k1, s)
    ensures Clean(k1, Sub(k2, s))
    decreases |s|
  {
    if s != [] {
      if MatchAt(s, k2) {
        var t := s[|k2| + Run(s[|k2|..])..];
        CleanSuffix(k1, s, |k2| + Run(s[|k2|..]));
        CleanPreserved(k1, k2, t);
        var head := k2 + Redacted;
        forall i | 0 <= i < |head| ensures !MatchAt((head + Sub(k2, t))[i..], k1) {
          if i < |k2| { assert (head + Sub(k2, t))[i] == k2[i]; }
          else { assert (head + Sub(k2, t))[i] == Redacted[i - |k2|]; }
        }
        CleanPrefixed(k1, head, Sub(k2, t));
      } else {
        CleanSuffix(k1, s, 1);
        CleanPreserved(k1, k2, s[1..]);
        var o := [s[0]] + Sub(k2, s[1..]);
        assert o[0..] == o;
        if MatchAt(o, k1) {
          CleanHead(k1, k2, s);
        }
        CleanAtZero(k1, o, Sub(k2, s[1..]));
      }
    }
  }

  lemma CleanAtZero(key: string, o: string, w: string)
    requires |o| >= 1 && o[1..] == w && Clean(key, w)
    requires MatchAt(o, key) ==> StartsWith(o[|key|..], Redacted) && Run(o[|key|..]) == |Redacted|
    ensures Clean(key, o)
  {
    forall i | 0 <= i < |o| && MatchAt(o[i..], key)
      ensures StartsWith(o[i + |key|..], Redacted) && Run(o[i + |key|..]) == |Redacted|
    {
      if i == 0 {
        assert o[0..] == o;
      } else {
        assert o[i..] == w[i - 1..];
        assert o[i + |key|..] == w[i - 1 + |key|..];
      }
    }
  }

  /** The copy case of CleanPreserved, at position 0. */
  lemma CleanHead(k1: string, k2: string, s: string)
    requires KeyShape(k1) && KeyShape(k2)
    requires k1[0] !in k2 && k2[0] !in k1
    requires Clean(k1, s) && s != [] && !MatchAt(s, k2)
    requires MatchAt([s[0]] + Sub(k2, s[1..]), k1)
    ensures var o := [s[0]] + Sub(k2, s[1..]);
      StartsWith(o[|k1|..], Redacted) && Run(o[|k1|..]) == |Redacted|
  {
    var j, tail := SplitAtFirstMatch(k2, s, |k1| + |Redacted|);
    CleanHeadCases(k1, k2, s, j, tail);
  }

  lemma CleanHeadCases(k1: string, k2: string, s: string, j: nat, tail: string)
    requires KeyShape(k1) && KeyShape(k2)
    requires k1[0] !in k2 && k2[0] !in k1
    requires Clean(k1, s) && j < |s| && j <= |k1| + |Redacted|
    requires j == |s| - 1 ==> tail == []
    requires j < |k1| + |Redacted| && j < |s| - 1 ==> MatchAt(s[j + 1..], k2) && StartsWith(tail, k2)
    requires MatchAt(s[..j + 1] + tail, k1)
    ensures var o := s[..j + 1] + tail;
      StartsWith(o[|k1|..], Redacted) && Run(o[|k1|..]) == |Redacted|
  {
    var o := s[..j + 1] + tail;
    var w := |k1| + |Redacted|;
    assert s[0..] == s;
    if j == |s| - 1 {
      assert o == s;
    } else if j < w {
      assert o[j + 1] == k2[0];
      if j + 1 >= |k1| {
        assert o[..|k1|] == s[..|k1|];
        assert o[|k1|] == s[|k1|];
        assert MatchAt(s, k1);
        RunSpec(s[|k1|..]);
      }
      assert false;
    } else {
      assert o[..|k1|] == s[..|k1|];
      assert o[|k1|] == s[|k1|];
      assert MatchAt(s, k1);
      assert s[|k1|..][..|Redacted|] == Redacted;
      assert o[|k1|..] == Redacted + o[w..];
      RedactedIsValue();
      RunSpec(s[|k1|..]);
      assert o[w] == s[w] == s[|k1|..][|Redacted|];
      RunAppend(Redacted, o[w..]);
    }
  }

  // ---------------------------------------------------------------------
  // Properties of the formatter

  lemma FormatClean(message: string)
    ensures var r := Sub("api_key=", Sub("token=", message));
      Clean("token=", r) && Clean("api_key=", r)
  {
    KeysHaveShape();
    SubClean("token=", message);
    CleanPreserved("token=", "api_key=", Sub("token=", message));
    SubClean("api_key=", Sub("token=", message));
  }

  /** Formatting an already formatted message changes nothing. */
  lemma FormatIdempotent(message: string)
    ensures var r := Sub("api_key=", Sub("token=", message));
      Sub("api_key=", Sub("token=", r)) == r
  {
    KeysHaveShape();
    var r := Sub("api_key=", Sub("token=", message));
    FormatClean(message);
    CleanFixed("token=", r);
    CleanFixed("api_key=", r);
  }

  /** A message in which neither key occurs comes out unchanged. */
  lemma FormatWithoutKeys(message: string)
    requires forall i :: 0 <= i <= |message| ==> !StartsWith(message[i..], "token=")
    requires forall i :: 0 <= i <= |message| ==> !StartsWith(message[i..], "api_key=")
    ensures Sub("api_key=", Sub("token=", message)) == message
  {
    NoKeyUnchanged("token=", message);
    NoKeyUnchanged("api_key=", message);
  }
}
