/** String helpers shared by both snapshots: `String::pop`, delimiter
    joining and splitting, and decimal rendering of counts. */
module Strings {

  /** Rust's `String::pop`: removes the last character, if there is one. */
  function DropLast(s: string): (r: string)
    ensures |s| == 0 ==> r == s
    ensures |s| > 0 ==> r + [s[|s| - 1]] == s
  {
    if |s| == 0 then s else s[..|s| - 1]
  }

  /** Every token, each followed by `d` (what a loop of `push_str(tok); push_str(d)` builds). */
  function Terminated(ts: seq<string>, d: string): string
  {
    if |ts| == 0 then "" else ts[0] + d + Terminated(ts[1..], d)
  }

  /** The tokens with `d` between consecutive ones. */
  function Join(ts: seq<string>, d: string): string
    requires |ts| > 0
  {
    if |ts| == 1 then ts[0] else ts[0] + d + Join(ts[1..], d)
  }

  /** Every token, each preceded by `d`. */
  function Led(ts: seq<string>, d: string): string
  {
    if |ts| == 0 then "" else d + ts[0] + Led(ts[1..], d)
  }

  /** A joined list is its first token followed by the rest, each led by the delimiter. */
  lemma {:induction false} JoinLed(ts: seq<string>, d: string)
    requires |ts| > 0
    ensures Join(ts, d) == ts[0] + Led(ts[1..], d)
    decreases |ts|
  {
    if |ts| > 1 {
      JoinLed(ts[1..], d);
      assert ts[1..][1..] == ts[2..];
    }
  }

  /** Splits `s` at every occurrence of `d`, scanning left to right.
      An empty delimiter does not split. */
  function Split(s: string, d: string): (r: seq<string>)
    ensures |r| > 0
    decreases |s|
  {
    if |d| == 0 || |s| == 0 then [s]
    else if d <= s then [""] + Split(s[|d|..], d)
    else
      var r := Split(s[1..], d);
      [[s[0]] + r[0]] + r[1..]
  }

  lemma AppendAssoc(a: string, b: string, c: string)
    ensures a + b + c == a + (b + c)
  {
  }

  /** `Terminated` distributes over concatenation of token lists. */
  lemma {:induction false} TerminatedAppend(a: seq<string>, b: seq<string>, d: string)
    ensures Terminated(a + b, d) == Terminated(a, d) + Terminated(b, d)
    decreases |a|
  {
    if |a| == 0 {
      assert a + b == b;
    } else {
      assert (a + b)[1..] == a[1..] + b;
      TerminatedAppend(a[1..], b, d);
    }
  }

  /** Joining and then appending one more delimiter terminates every token. */
  lemma {:induction false} JoinThenDelimiter(ts: seq<string>, d: string)
    requires |ts| > 0
    ensures Join(ts, d) + d == Terminated(ts, d)
    decreases |ts|
  {
    if |ts| > 1 {
      JoinThenDelimiter(ts[1..], d);
    }
  }

  /** With a one-character delimiter, dropping the last character of the
      terminated tokens leaves them joined. */
  lemma DropLastTerminated(ts: seq<string>, d: string)
    requires |ts| > 0 && |d| == 1
    ensures DropLast(Terminated(ts, d)) == Join(ts, d)
  {
    JoinThenDelimiter(ts, d);
    var j := Join(ts, d);
    assert j + d == j + [d[0]];
    assert (j + [d[0]])[..|j|] == j;
  }

  /** A token free of the delimiter's first character is not split. */
  lemma {:induction false} SplitToken(t: string, d: string)
    requires |d| > 0 && d[0] !in t
    ensures Split(t, d) == [t]
    decreases |t|
  {
    if |t| > 0 {
      assert !(d <= t) by { assert t[0] != d[0]; }
      SplitToken(t[1..], d);
      assert [t[0]] + t[1..] == t;
    }
  }

  /** A delimiter-free token followed by the delimiter splits off as one token. */
  lemma {:induction false} SplitAfterToken(t: string, d: string, rest: string)
    requires |d| > 0 && d[0] !in t
    ensures Split(t + d + rest, d) == [t] + Split(rest, d)
    decreases |t|
  {
    var s := t + d + rest;
    if |t| == 0 {
      assert s == d + rest;
      assert d <= s;
      assert s[|d|..] == rest;
    } else {
      assert s[0] == t[0] && t[0] != d[0];
      assert !(d <= s);
      assert s[1..] == t[1..] + d + rest;
      SplitAfterToken(t[1..], d, rest);
      assert [t[0]] + t[1..] == t;
    }
  }

  /** Splitting undoes joining when no token holds the delimiter's first character. */
  lemma {:induction false} SplitJoin(ts: seq<string>, d: string)
    requires |d| > 0 && |ts| > 0
    requires forall i | 0 <= i < |ts| :: d[0] !in ts[i]
    ensures Split(Join(ts, d), d) == ts
    decreases |ts|
  {
    if |ts| == 1 {
      SplitToken(ts[0], d);
    } else {
      SplitJoin(ts[1..], d);
      SplitAfterToken(ts[0], d, Join(ts[1..], d));
      assert [ts[0]] + ts[1..] == ts;
    }
  }

  /** Prepending characters to the first token prepends them to the joined string. */
  lemma JoinExtendHead(x: string, ts: seq<string>, d: string)
    requires |ts| > 0
    ensures Join([x + ts[0]] + ts[1..], d) == x + Join(ts, d)
  {
    var us := [x + ts[0]] + ts[1..];
    assert us[1..] == ts[1..];
  }

  /** An empty first token joins to a leading delimiter. */
  lemma JoinEmptyHead(ts: seq<string>, d: string)
    requires |ts| > 0
    ensures Join([""] + ts, d) == d + Join(ts, d)
  {
    assert ([""] + ts)[1..] == ts;
    assert "" + d == d;
  }

  /** A prefix followed by the rest of the string is the string. */
  lemma PrefixRest(s: string, d: string)
    requires d <= s
    ensures d + s[|d|..] == s
  {
    assert s[..|d|] == d;
  }

  /** A suffix of a sequence starts with the element at its index and goes on with the next suffix. */
  lemma SuffixCons<T>(a: seq<T>, k: nat)
    requires k < |a|
    ensures a[k..][0] == a[k] && a[k..][1..] == a[k + 1..]
  {
  }

  /** The led suffix from `k` is the `k`-th token led by `d`, then the led suffix from `k + 1`. */
  lemma LedSuffix(ts: seq<string>, d: string, k: nat)
    requires k < |ts|
    ensures Led(ts[k..], d) == d + ts[k] + Led(ts[k + 1..], d)
  {
    SuffixCons(ts, k);
  }

  /** Dropping a prefix leaves what followed it. */
  lemma RestAfter(p: string, x: string)
    ensures (p + x)[|p|..] == x
  {
  }

  /** A delimiter at the front of `s` is one step of `JoinSplit`. */
  lemma JoinSplitAtDelimiter(s: string, d: string)
    requires |d| > 0 && |s| > 0 && d <= s
    requires Join(Split(s[|d|..], d), d) == s[|d|..]
    ensures Join(Split(s, d), d) == s
  {
    var r := Split(s[|d|..], d);
    assert Split(s, d) == [""] + r;
    JoinEmptyHead(r, d);
    PrefixRest(s, d);
  }

  /** Any other first character is one step of `JoinSplit`. */
  lemma JoinSplitAtChar(s: string, d: string)
    requires |d| > 0 && |s| > 0 && !(d <= s)
    requires Join(Split(s[1..], d), d) == s[1..]
    ensures Join(Split(s, d), d) == s
  {
    var r := Split(s[1..], d);
    assert Split(s, d) == [[s[0]] + r[0]] + r[1..];
    JoinExtendHead([s[0]], r, d);
    PrefixRest(s, [s[0]]);
  }

  /** Joining undoes splitting, whatever the input. */
  lemma {:induction false} JoinSplit(s: string, d: string)
    requires |d| > 0
    ensures Join(Split(s, d), d) == s
    decreases |s|
  {
    if |s| == 0 {
    } else if d <= s {
      JoinSplit(s[|d|..], d);
      JoinSplitAtDelimiter(s, d);
    } else {
      JoinSplit(s[1..], d);
      JoinSplitAtChar(s, d);
    }
  }

  predicate IsDigit(c: char) {
    '0' <= c <= '9'
  }

  predicate AllDigits(s: string) {
    forall i | 0 <= i < |s| :: IsDigit(s[i])
  }

  /** The value of a run of decimal digits. */
  function DecimalValue(s: string): nat
    requires AllDigits(s)
  {
    if |s| == 0 then 0 else 10 * DecimalValue(s[..|s| - 1]) + (s[|s| - 1] as int - '0' as int)
  }

  /** The decimal rendering of `n` that Rust's `Display` for integers writes. */
  function DecimalString(n: nat): (r: string)
    ensures |r| > 0 && AllDigits(r)
  {
    if n < 10 then ['0' + n as char] else DecimalString(n / 10) + ['0' + (n % 10) as char]
  }

  /** Reading a rendered number back gives the number. */
  lemma {:induction false} DecimalRoundTrip(n: nat)
    ensures DecimalValue(DecimalString(n)) == n
  {
    var r := DecimalString(n);
    if n >= 10 {
      DecimalRoundTrip(n / 10);
      assert r[..|r| - 1] == DecimalString(n / 10);
    }
  }
}
