/** Character classes, Python string methods and the small searches the
    script's regular expressions perform, written as explicit functions. */
module Text {
  import opened Wrappers

  /** The characters Python's `str.isspace` (and so `rstrip`, `split()` and `\s`) treats as whitespace. */
  predicate IsSpace(c: char) {
    var n := c as int;
    (9 <= n <= 13) || (28 <= n <= 32) || n == 0x85 || n == 0xA0 || n == 0x1680
    || (0x2000 <= n <= 0x200A) || n == 0x2028 || n == 0x2029 || n == 0x202F
    || n == 0x205F || n == 0x3000
  }

  /** `\d`, restricted to the ASCII digits. */
  predicate IsDigit(c: char) { '0' <= c <= '9' }

  /** `\w`, restricted to ASCII letters, digits and the underscore. */
  predicate IsWord(c: char) { 'a' <= c <= 'z' || 'A' <= c <= 'Z' || IsDigit(c) || c == '_' }

  predicate AllSpace(s: string) { forall i :: 0 <= i < |s| ==> IsSpace(s[i]) }
  predicate NoSpace(s: string) { forall i :: 0 <= i < |s| ==> !IsSpace(s[i]) }
  predicate AllDigits(s: string) { forall i :: 0 <= i < |s| ==> IsDigit(s[i]) }
  predicate AllWord(s: string) { forall i :: 0 <= i < |s| ==> IsWord(s[i]) }

  /** A non-empty string of digits: what `(\d+)` captures. */
  predicate IsNumber(s: string) { |s| >= 1 && AllDigits(s) }

  /** `s.rstrip()`: the longest prefix of `s` that does not end in whitespace. */
  function RStrip(s: string): (r: string)
    ensures r <= s
    ensures AllSpace(s[|r|..])
    ensures r == [] || !IsSpace(r[|r| - 1])
  {
    if s == [] || !IsSpace(s[|s| - 1]) then s else RStrip(s[..|s| - 1])
  }

  /** Where the longest run of characters satisfying `p` that starts at `s[i]` ends. */
  function RunEnd(s: string, i: nat, p: char -> bool): (k: nat)
    requires i <= |s|
    ensures i <= k <= |s|
    decreases |s| - i
  {
    if i < |s| && p(s[i]) then RunEnd(s, i + 1, p) else i
  }

  /** The run `RunEnd` finds is all `p`-characters and maximal. */
  lemma {:induction false} RunEndSpec(s: string, i: nat, p: char -> bool)
    requires i <= |s|
    ensures forall x :: i <= x < RunEnd(s, i, p) ==> p(s[x])
    ensures RunEnd(s, i, p) < |s| ==> !p(s[RunEnd(s, i, p)])
    decreases |s| - i
  {
    if i < |s| && p(s[i]) {
      RunEndSpec(s, i + 1, p);
    }
  }

  /** A run of `p`-characters that ends where `p` fails is the one `RunEnd` finds. */
  lemma {:induction false} RunEndExact(s: string, i: nat, j: nat, p: char -> bool)
    requires i <= j <= |s|
    requires forall k :: i <= k < j ==> p(s[k])
    requires j == |s| || !p(s[j])
    ensures RunEnd(s, i, p) == j
    decreases j - i
  {
    if i < j {
      RunEndExact(s, i + 1, j, p);
    }
  }

  /** The maximal run of non-whitespace characters at the start of `s`. */
  function Word(s: string): (w: string)
    ensures w <= s && NoSpace(w)
    ensures |w| < |s| ==> IsSpace(s[|w|])
    ensures NoSpace(s) ==> w == s
  {
    if s == [] || IsSpace(s[0]) then [] else [s[0]] + Word(s[1..])
  }

  /** `s.split()`: the maximal runs of non-whitespace characters of `s`, in order. */
  function Tokens(s: string): (r: seq<string>)
    ensures forall k :: 0 <= k < |r| ==> r[k] != [] && NoSpace(r[k])
    ensures r == [] <==> AllSpace(s)
    ensures s != [] && NoSpace(s) ==> r == [s]
    decreases |s|
  {
    if s == [] then []
    else if IsSpace(s[0]) then Tokens(s[1..])
    else var w := Word(s); [w] + Tokens(s[|w|..])
  }

  /** A word ends at the first whitespace, so what follows that whitespace does not change it. */
  lemma {:induction false} WordBeforeSpace(a: string, x: string)
    requires x != [] && IsSpace(x[0])
    ensures Word(a + x) == Word(a)
    decreases |a|
  {
    if a == [] {
      assert a + x == x;
    } else {
      assert (a + x)[0] == a[0] && (a + x)[1..] == a[1..] + x;
      WordBeforeSpace(a[1..], x);
    }
  }

  /** `split()` cuts at every whitespace character: the tokens around one are those of the
      two sides. With the all-whitespace and single-token cases this determines `split()`. */
  lemma {:induction false} TokensAtSpace(a: string, c: char, b: string)
    requires IsSpace(c)
    ensures Tokens(a + [c] + b) == Tokens(a) + Tokens(b)
    decreases |a|
  {
    var s := a + [c] + b;
    if a == [] {
      assert s == [c] + b && s[1..] == b;
    } else if IsSpace(a[0]) {
      assert s[0] == a[0] && s[1..] == a[1..] + [c] + b;
      TokensAtSpace(a[1..], c, b);
    } else {
      assert s == a + ([c] + b);
      WordBeforeSpace(a, [c] + b);
      var w := Word(a);
      assert s[0] == a[0];
      assert s[|w|..] == a[|w|..] + [c] + b;
      TokensAtSpace(a[|w|..], c, b);
    }
  }

  /** `s.replace(':', '')`. */
  function RemoveColons(s: string): (r: string)
    ensures ':' !in r
    ensures |r| <= |s|
    ensures ':' !in s ==> r == s
    ensures s == ":" ==> r == []
  {
    if s == [] then [] else (if s[0] == ':' then [] else [s[0]]) + RemoveColons(s[1..])
  }

  /** Removing colons works character by character, so it distributes over concatenation. */
  lemma {:induction false} RemoveColonsConcat(a: string, b: string)
    ensures RemoveColons(a + b) == RemoveColons(a) + RemoveColons(b)
  {
    if a == [] {
      assert a + b == b;
    } else {
      var head := if a[0] == ':' then [] else [a[0]];
      assert (a + b)[0] == a[0] && (a + b)[1..] == a[1..] + b;
      RemoveColonsConcat(a[1..], b);
      assert RemoveColons(a + b) == head + (RemoveColons(a[1..]) + RemoveColons(b));
    }
  }

  /** `p` occurs somewhere in `s`. */
  predicate Contains(s: string, p: string)
    decreases |s|
  {
    p <= s || (s != [] && Contains(s[1..], p))
  }

  /** The smallest `i` in `[lo, hi)` with `P(i)`: how a regex search picks the leftmost match. */
  function FirstWhere(lo: nat, hi: nat, P: nat -> bool): (r: Option<nat>)
    requires lo <= hi
    ensures r.Some? ==> lo <= r.value < hi && P(r.value)
    ensures r.Some? ==> forall j :: lo <= j < r.value ==> !P(j)
    ensures r.None? ==> forall j :: lo <= j < hi ==> !P(j)
    decreases hi - lo
  {
    if lo == hi then None else if P(lo) then Some(lo) else FirstWhere(lo + 1, hi, P)
  }

  /** The largest `i` in `[lo, hi)` with `P(i)`: how a greedy group picks the longest match. */
  function LastWhere(lo: nat, hi: nat, P: nat -> bool): (r: Option<nat>)
    requires lo <= hi
    ensures r.Some? ==> lo <= r.value < hi && P(r.value)
    ensures r.Some? ==> forall j :: r.value < j < hi ==> !P(j)
    ensures r.None? ==> forall j :: lo <= j < hi ==> !P(j)
    decreases hi - lo
  {
    if lo == hi then None else if P(hi - 1) then Some(hi - 1) else LastWhere(lo, hi - 1, P)
  }
}
