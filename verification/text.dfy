/** String helpers with Python's semantics: `str.isspace`, `str.strip`,
    `str.strip(chars)`, the `s[:n] + '...'` truncation idiom, `sep.join`,
    and the decimal rendering of a non-negative integer in an f-string. */
module Text {

  /** Python's `str.isspace()`, which is also what the `\s` class of `re`
      matches in a str pattern. */
  predicate IsSpace(c: char) {
    || c == ' '
    || ('\t' <= c <= '\r')
    || ('\U{1C}' <= c <= '\U{1F}')
    || c == '\U{85}' || c == '\U{A0}' || c == '\U{1680}'
    || ('\U{2000}' <= c <= '\U{200A}')
    || c == '\U{2028}' || c == '\U{2029}' || c == '\U{202F}'
    || c == '\U{205F}' || c == '\U{3000}'
  }

  /** Removes the leading characters satisfying `drop`. */
  function TrimLeft(s: string, drop: char -> bool): string
    decreases |s|
  {
    if |s| > 0 && drop(s[0]) then TrimLeft(s[1..], drop) else s
  }

  /** Removes the trailing characters satisfying `drop`. */
  function TrimRight(s: string, drop: char -> bool): string
    decreases |s|
  {
    if |s| > 0 && drop(s[|s| - 1]) then TrimRight(s[..|s| - 1], drop) else s
  }

  /** Python's `s.strip(chars)`: both ends, as many characters as match. */
  function Trim(s: string, drop: char -> bool): string {
    TrimRight(TrimLeft(s, drop), drop)
  }

  /** Neither end of `s` is a character satisfying `drop`. */
  predicate Trimmed(s: string, drop: char -> bool) {
    s == [] || (!drop(s[0]) && !drop(s[|s| - 1]))
  }

  /** Every character of `s` satisfies `drop`. */
  predicate AllDrop(s: string, drop: char -> bool) {
    forall k :: 0 <= k < |s| ==> drop(s[k])
  }

  /** `TrimLeft` removes exactly the longest prefix of dropped characters. */
  lemma {:induction false} TrimLeftFacts(s: string, drop: char -> bool)
    ensures var r := TrimLeft(s, drop);
      && |r| <= |s| && r == s[|s| - |r|..]
      && (forall k :: 0 <= k < |s| - |r| ==> drop(s[k]))
      && (r == [] || !drop(r[0]))
    decreases |s|
  {
    if |s| > 0 && drop(s[0]) {
      TrimLeftFacts(s[1..], drop);
    }
  }

  /** `TrimRight` removes exactly the longest suffix of dropped characters. */
  lemma {:induction false} TrimRightFacts(s: string, drop: char -> bool)
    ensures var r := TrimRight(s, drop);
      && |r| <= |s| && r == s[..|r|]
      && (forall k :: |r| <= k < |s| ==> drop(s[k]))
      && (r == [] || !drop(r[|r| - 1]))
    decreases |s|
  {
    if |s| > 0 && drop(s[|s| - 1]) {
      TrimRightFacts(s[..|s| - 1], drop);
    }
  }

  /** What `strip(chars)` guarantees: neither end of the result is
      stripped, the result is empty only when every character was,
      an already-trimmed string is left alone, and the result is a
      contiguous piece of the input. */
  lemma TrimFacts(s: string, drop: char -> bool)
    ensures var r := Trim(s, drop);
      && |r| <= |s|
      && Trimmed(r, drop)
      && (r == [] <==> AllDrop(s, drop))
      && (Trimmed(s, drop) ==> r == s)
      && |r| <= |TrimLeft(s, drop)| <= |s|
      && r == s[|s| - |TrimLeft(s, drop)|..][..|r|]
  {
    var l := TrimLeft(s, drop);
    TrimLeftFacts(s, drop);
    TrimRightFacts(l, drop);
    var r := TrimRight(l, drop);
    assert r == [] ==> l == [];
  }

  /** Dropped characters in front of a string are all removed. */
  lemma {:induction false} TrimLeftSkips(pre: string, s: string, drop: char -> bool)
    requires AllDrop(pre, drop)
    ensures TrimLeft(pre + s, drop) == TrimLeft(s, drop)
    decreases |pre|
  {
    if pre != [] {
      assert (pre + s)[0] == pre[0] && drop(pre[0]);
      assert (pre + s)[1..] == pre[1..] + s;
      assert AllDrop(pre[1..], drop) by {
        forall k | 0 <= k < |pre| - 1 ensures drop(pre[1..][k]) {
          assert pre[1..][k] == pre[k + 1];
        }
      }
      TrimLeftSkips(pre[1..], s, drop);
      assert TrimLeft(pre + s, drop) == TrimLeft((pre + s)[1..], drop);
    } else {
      assert pre + s == s;
    }
  }

  /** Dropped characters behind a string are all removed. */
  lemma {:induction false} TrimRightSkips(s: string, post: string, drop: char -> bool)
    requires AllDrop(post, drop)
    ensures TrimRight(s + post, drop) == TrimRight(s, drop)
    decreases |post|
  {
    if post != [] {
      assert (s + post)[|s + post| - 1] == post[|post| - 1] && drop(post[|post| - 1]);
      assert (s + post)[..|s + post| - 1] == s + post[..|post| - 1];
      assert AllDrop(post[..|post| - 1], drop) by {
        var init := post[..|post| - 1];
        forall k | 0 <= k < |init| ensures drop(init[k]) {
          assert init[k] == post[k];
        }
      }
      TrimRightSkips(s, post[..|post| - 1], drop);
      assert TrimRight(s + post, drop) == TrimRight((s + post)[..|s + post| - 1], drop);
    } else {
      assert s + post == s;
    }
  }

  /** Trimming the front of `s + t` stops inside `s` when `s` has a kept character. */
  lemma {:induction false} TrimLeftKeepsTail(s: string, t: string, drop: char -> bool)
    requires !AllDrop(s, drop)
    ensures TrimLeft(s + t, drop) == TrimLeft(s, drop) + t
    decreases |s|
  {
    if drop(s[0]) {
      var k :| 0 <= k < |s| && !drop(s[k]);
      assert s[1..][k - 1] == s[k];
      assert (s + t)[1..] == s[1..] + t;
      TrimLeftKeepsTail(s[1..], t, drop);
    }
  }

  /** `strip(chars)` ignores padding made only of the stripped characters. */
  lemma TrimPadding(pre: string, s: string, post: string, drop: char -> bool)
    requires AllDrop(pre, drop) && AllDrop(post, drop)
    ensures Trim(pre + s + post, drop) == Trim(s, drop)
  {
    assert pre + s + post == pre + (s + post);
    TrimLeftSkips(pre, s + post, drop);
    if AllDrop(s, drop) {
      assert AllDrop(s + post, drop);
      TrimLeftSkips(s + post, [], drop);
      assert s + post + [] == s + post;
      TrimFacts(s, drop);
    } else {
      TrimLeftKeepsTail(s, post, drop);
      TrimRightSkips(TrimLeft(s, drop), post, drop);
    }
  }

  /** Python's `s.strip()`. */
  function Strip(s: string): string {
    Trim(s, IsSpace)
  }

  /** A string that `strip()` leaves unchanged. */
  predicate IsStripped(s: string) {
    Trimmed(s, IsSpace)
  }

  const Ellipsis := "..."

  /** The idiom `s[:n] + '...' if len(s) > n else s`. */
  function Truncate(s: string, n: nat): (r: string)
    ensures |s| <= n ==> r == s
    ensures |s| > n ==> |r| == n + |Ellipsis| && r[..n] == s[..n] && r[n..] == Ellipsis
  {
    if |s| > n then s[..n] + Ellipsis else s
  }

  /** The truncated text is never longer than the cap plus the marker. */
  lemma TruncateBound(s: string, n: nat)
    ensures |Truncate(s, n)| <= n + |Ellipsis|
  {
  }

  /** Truncating a second time changes nothing, and the result is never
      longer than the cap plus the marker. */
  lemma TruncateIdempotent(s: string, n: nat)
    ensures |Truncate(s, n)| <= n + |Ellipsis|
    ensures Truncate(Truncate(s, n), n) == Truncate(s, n)
  {
    if |s| > n {
      assert Truncate(s, n)[..n] == s[..n];
    }
  }

  /** Python's `sep.join(parts)`. */
  function Join(parts: seq<string>, sep: string): string
    decreases |parts|
  {
    if |parts| == 0 then ""
    else if |parts| == 1 then parts[0]
    else parts[0] + sep + Join(parts[1..], sep)
  }

  /** The joined text starts with the first piece and ends with the last. */
  lemma {:induction false} JoinEnds(parts: seq<string>, sep: string)
    requires |parts| > 0
    ensures var r := Join(parts, sep);
      && |r| >= |parts[0]| && r[..|parts[0]|] == parts[0]
      && |r| >= |parts[|parts| - 1]| && r[|r| - |parts[|parts| - 1]|..] == parts[|parts| - 1]
    decreases |parts|
  {
    if |parts| > 1 {
      JoinEnds(parts[1..], sep);
      assert parts[1..][|parts[1..]| - 1] == parts[|parts| - 1];
    }
  }

  /** Joining pieces whose first piece does not start, and whose last
      piece does not end, in whitespace gives text that does neither. */
  lemma JoinStripped(parts: seq<string>, sep: string)
    requires |parts| > 0
    requires parts[0] != [] && IsStripped(parts[0])
    requires parts[|parts| - 1] != [] && IsStripped(parts[|parts| - 1])
    ensures Join(parts, sep) != [] && IsStripped(Join(parts, sep))
  {
    var r := Join(parts, sep);
    var last := parts[|parts| - 1];
    JoinEnds(parts, sep);
    assert r[0] == parts[0][0];
    assert r[|r| - 1] == r[|r| - |last|..][|last| - 1] == last[|last| - 1];
  }

  /** The decimal digit for 0 <= d < 10. */
  function Digit(d: nat): char
    requires d < 10
  {
    "0123456789"[d]
  }

  function DigitValue(c: char): nat {
    if '0' <= c <= '9' then (c as int - '0' as int) else 0
  }

  predicate IsDigit(c: char) {
    '0' <= c <= '9'
  }

  /** The value of a string of decimal digits. */
  function DecimalValue(s: string): nat
    decreases |s|
  {
    if s == [] then 0 else DecimalValue(s[..|s| - 1]) * 10 + DigitValue(s[|s| - 1])
  }

  /** `str(n)` for a non-negative integer: decimal digits, no leading zero. */
  function NatToString(n: nat): (r: string)
    ensures r != []
    ensures forall k :: 0 <= k < |r| ==> IsDigit(r[k])
    ensures r[0] != '0' || n == 0
    decreases n
  {
    if n < 10 then [Digit(n)] else NatToString(n / 10) + [Digit(n % 10)]
  }

  /** Reading the digits back gives the number: `int(str(n)) == n`. */
  lemma {:induction false} NatToStringRoundTrip(n: nat)
    ensures DecimalValue(NatToString(n)) == n
    decreases n
  {
    if n >= 10 {
      NatToStringRoundTrip(n / 10);
      var s := NatToString(n);
      assert s[..|s| - 1] == NatToString(n / 10);
    }
  }

  /** Distinct numbers render differently. */
  lemma NatToStringInjective(m: nat, n: nat)
    requires NatToString(m) == NatToString(n)
    ensures m == n
  {
    NatToStringRoundTrip(m);
    NatToStringRoundTrip(n);
  }
}
