/**
 The counter match of the resolver: the regular expression
 `(?<name>.*)(?<counter>\(\d+\))$` applied with `String.prototype.match`,
 written out as explicit scans. A match exists exactly when the string ends in
 a counter such as `(12)`; that counter is unique, and the `name` group is the
 text between the last line terminator before it (or the start) and the counter.
 */
module Counter {
  import opened Wrappers
  import opened Strings

  /** `\(\d+\)`: an opening parenthesis, at least one ASCII digit, a closing parenthesis. */
  predicate IsCounter(c: string) {
    && |c| >= 3
    && c[0] == '('
    && c[|c| - 1] == ')'
    && forall i :: 1 <= i < |c| - 1 ==> IsDigit(c[i])
  }

  /** Some suffix of `s` is a counter, so `\(\d+\)$` can match. */
  predicate EndsWithCounter(s: string) {
    exists n :: 0 <= n <= |s| && IsCounter(s[n..])
  }

  /** The start of the longest run of ASCII digits that ends just before position `j`. */
  function DigitRunStart(s: string, j: nat): (k: nat)
    requires j <= |s|
    ensures k <= j
    ensures forall i :: k <= i < j ==> IsDigit(s[i])
    ensures k == 0 || !IsDigit(s[k - 1])
    decreases j
  {
    if j > 0 && IsDigit(s[j - 1]) then DigitRunStart(s, j - 1) else j
  }

  /** A run of digits bounded on the left by a non-digit at `m` starts at `m + 1`. */
  lemma {:induction false} DigitRunStartAfter(s: string, j: nat, m: nat)
    requires m < j <= |s|
    requires !IsDigit(s[m])
    requires forall i :: m < i < j ==> IsDigit(s[i])
    ensures DigitRunStart(s, j) == m + 1
    decreases j
  {
    if j > m + 1 {
      DigitRunStartAfter(s, j - 1, m);
    }
  }

  /** The position where the counter suffix of `s` starts, if `s` has one. */
  function CounterStart(s: string): (r: Option<nat>)
    ensures r.Some? ==> r.value <= |s| && IsCounter(s[r.value..])
  {
    if |s| >= 3 && s[|s| - 1] == ')' then
      var k := DigitRunStart(s, |s| - 1);
      if 1 <= k < |s| - 1 && s[k - 1] == '(' then
        CounterAt(s, k - 1);
        Some(k - 1)
      else
        None
    else
      None
  }

  /** The suffix from `n` is a counter when its characters have the shape `\(\d+\)`. */
  lemma CounterAt(s: string, n: nat)
    requires n + 3 <= |s|
    requires s[n] == '(' && s[|s| - 1] == ')'
    requires forall i :: n < i < |s| - 1 ==> IsDigit(s[i])
    ensures IsCounter(s[n..])
  {
    var c := s[n..];
    forall i | 1 <= i < |c| - 1
      ensures IsDigit(c[i])
    {
      assert c[i] == s[n + i];
    }
  }

  /** `CounterStart` finds every counter suffix, so a counter suffix is unique. */
  lemma CounterStartFinds(s: string, n: nat)
    requires n <= |s|
    requires IsCounter(s[n..])
    ensures CounterStart(s) == Some(n)
  {
    var c := s[n..];
    assert s[n] == c[0];
    assert s[|s| - 1] == c[|c| - 1];
    forall i | n < i < |s| - 1
      ensures IsDigit(s[i])
    {
      assert s[i] == c[i - n];
    }
    DigitRunStartAfter(s, |s| - 1, n);
  }

  /** At most one suffix of a string is a counter. */
  lemma CounterSuffixUnique(s: string, a: nat, b: nat)
    requires a <= |s| && b <= |s|
    requires IsCounter(s[a..]) && IsCounter(s[b..])
    ensures a == b
  {
    CounterStartFinds(s, a);
    CounterStartFinds(s, b);
  }

  /** Every string that ends in a counter has its start found by `CounterStart`. */
  lemma CounterStartComplete(s: string)
    ensures EndsWithCounter(s) <==> CounterStart(s).Some?
  {
    if EndsWithCounter(s) {
      var n :| 0 <= n <= |s| && IsCounter(s[n..]);
      CounterStartFinds(s, n);
    }
  }

  /** The start of the longest stretch free of line terminators that ends at position `j`. */
  function LineStart(s: string, j: nat): (k: nat)
    requires j <= |s|
    ensures k <= j
    ensures NoLineTerminator(s[k..j])
    ensures k == 0 || IsLineTerminator(s[k - 1])
    decreases j
  {
    if j > 0 && !IsLineTerminator(s[j - 1]) then
      var k := LineStart(s, j - 1);
      assert s[k..j] == s[k..j - 1] + [s[j - 1]];
      k
    else
      j
  }

  /** A stretch free of line terminators that starts at `m`, after a line terminator or at 0, is found. */
  lemma {:induction false} LineStartAt(s: string, j: nat, m: nat)
    requires m <= j <= |s|
    requires m == 0 || IsLineTerminator(s[m - 1])
    requires NoLineTerminator(s[m..j])
    ensures LineStart(s, j) == m
    decreases j
  {
    if j > m {
      assert s[m..j][j - 1 - m] == s[j - 1];
      assert s[m..j - 1] == s[m..j][..j - 1 - m];
      LineStartAt(s, j - 1, m);
    }
  }

  /** The `name` and `counter` groups of a successful match. */
  datatype CounterMatch = CounterMatch(name: string, counter: string)

  /**
   The regular expression search: the first start position from which `.*`
   (no line terminators) followed by a counter reaches the end of `s`.
   */
  function MatchCounter(s: string): (r: Option<CounterMatch>)
    ensures r.Some? <==> EndsWithCounter(s)
    ensures r.Some? ==>
      var m := r.value;
      var k := |s| - |m.name| - |m.counter|;
      && IsCounter(m.counter)
      && NoLineTerminator(m.name)
      && 0 <= k
      && s == s[..k] + m.name + m.counter
      && (k == 0 || IsLineTerminator(s[k - 1]))
  {
    CounterStartComplete(s);
    match CounterStart(s)
    case None => None
    case Some(c) =>
      var k := LineStart(s, c);
      assert s == s[..k] + s[k..c] + s[c..];
      Some(CounterMatch(s[k..c], s[c..]))
  }

  /**
   The match splits `s` uniquely: whenever `s` is `p + n + c` with `c` a counter,
   `n` free of line terminators and `p` empty or ending in a line terminator,
   the groups are exactly `n` and `c`.
   */
  lemma MatchCounterSplit(p: string, n: string, c: string)
    requires p == [] || IsLineTerminator(p[|p| - 1])
    requires NoLineTerminator(n)
    requires IsCounter(c)
    ensures MatchCounter(p + n + c) == Some(CounterMatch(n, c))
  {
    var s := p + n + c;
    var j := |p| + |n|;
    assert s[j..] == c;
    CounterStartFinds(s, j);
    assert s[|p|..j] == n;
    assert |p| > 0 ==> s[|p| - 1] == p[|p| - 1];
    LineStartAt(s, j, |p|);
    assert s[..j] == p + n;
  }

  /** Without line breaks the split is simply `name + counter`. */
  lemma MatchCounterNoLineBreak(n: string, c: string)
    requires NoLineTerminator(n)
    requires IsCounter(c)
    ensures MatchCounter(n + c) == Some(CounterMatch(n, c))
  {
    MatchCounterSplit([], n, c);
    assert [] + n + c == n + c;
  }
}
