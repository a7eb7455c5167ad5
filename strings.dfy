/**
  The Python `str` operations the converter relies on, over `seq<char>`:
  `strip`/`rstrip` (with and without a character set), `split` on one
  separator character, `split()` and `split(maxsplit=1)` on whitespace,
  `join`, `find`/`rfind`, the `in` substring test, `replace(c, '')`,
  `upper`/`lower` and `str(int)`.
 */
module Strings {

  /** The characters for which Python's `str.isspace()` holds; `strip()` and
      `split()` without arguments remove and split on exactly these. */
  predicate IsSpace(c: char) {
    || ('\t' <= c <= '\r')
    || ('\U{1C}' <= c <= '\U{1F}')
    || c == ' ' || c == '\U{85}' || c == '\U{A0}' || c == '\U{1680}'
    || ('\U{2000}' <= c <= '\U{200A}')
    || c == '\U{2028}' || c == '\U{2029}' || c == '\U{202F}' || c == '\U{205F}' || c == '\U{3000}'
  }

  /** A string whose first character is not whitespace. */
  predicate StartsWord(s: string) { s != [] && !IsSpace(s[0]) }

  predicate IsDoubleQuote(c: char) { c == '"' }

  predicate IsBracket(c: char) { c == '[' || c == ']' }

  predicate IsComma(c: char) { c == ',' }

  predicate StartsWith(s: string, prefix: string) {
    |prefix| <= |s| && s[..|prefix|] == prefix
  }

  /** `s.lstrip(chars)`: drops the longest prefix of characters satisfying
      `drop`; a string that does not start with one is left alone. */
  function TrimLeft(s: string, drop: char -> bool): (r: string)
    ensures |r| <= |s|
    ensures r == [] || !drop(r[0])
    ensures forall x :: x in r ==> x in s
    ensures s == [] || !drop(s[0]) ==> r == s
  {
    if s != [] && drop(s[0]) then TrimLeft(s[1..], drop) else s
  }

  /** `s.rstrip(chars)`: drops the longest suffix of characters satisfying
      `drop`; a string that does not end with one is left alone. */
  function TrimRight(s: string, drop: char -> bool): (r: string)
    ensures |r| <= |s|
    ensures r == [] || !drop(r[|r| - 1])
    ensures r != [] ==> r[0] == s[0]
    ensures forall x :: x in r ==> x in s
    ensures s == [] || !drop(s[|s| - 1]) ==> r == s
  {
    if s != [] && drop(s[|s| - 1]) then TrimRight(s[..|s| - 1], drop) else s
  }

  /** Right-stripping keeps a prefix of `s` and cuts only droppable
      characters after it. */
  lemma {:induction false} TrimRightPrefix(s: string, drop: char -> bool)
    ensures var r := TrimRight(s, drop);
      r == s[..|r|] && forall i :: |r| <= i < |s| ==> drop(s[i])
    decreases |s|
  {
    if s != [] && drop(s[|s| - 1]) {
      var init := s[..|s| - 1];
      TrimRightPrefix(init, drop);
      var r := TrimRight(s, drop);
      assert init[..|r|] == s[..|r|];
      forall i | |r| <= i < |s|
        ensures drop(s[i])
      {
        if i < |s| - 1 {
          assert s[i] == init[i];
        }
      }
    }
  }

  /** `s.strip(chars)`: drops droppable characters from both ends. Neither end
      of the result is droppable, every character of it comes from `s`, and a
      string with neither end droppable is left alone. */
  function Trim(s: string, drop: char -> bool): (r: string)
    ensures |r| <= |s|
    ensures r == [] || (!drop(r[0]) && !drop(r[|r| - 1]))
    ensures forall x :: x in r ==> x in s
    ensures s == [] || (!drop(s[0]) && !drop(s[|s| - 1])) ==> r == s
    decreases |s|
  {
    if s == [] then s
    else if drop(s[0]) then Trim(s[1..], drop)
    else if drop(s[|s| - 1]) then Trim(s[..|s| - 1], drop)
    else s
  }

  /** Stripping leaves nothing exactly when every character is droppable. */
  lemma {:induction false} TrimEmpty(s: string, drop: char -> bool)
    ensures Trim(s, drop) == [] <==> forall i :: 0 <= i < |s| ==> drop(s[i])
    decreases |s|
  {
    if s != [] && drop(s[0]) {
      TrimEmpty(s[1..], drop);
      assert forall i :: 1 <= i < |s| ==> s[i] == s[1..][i - 1];
    } else if s != [] && drop(s[|s| - 1]) {
      TrimEmpty(s[..|s| - 1], drop);
      assert forall i :: 0 <= i < |s| - 1 ==> s[i] == s[..|s| - 1][i];
    }
  }

  /** `r` sits in `s` at offset `a`, and every character of `s` before or
      after it is droppable. */
  predicate CutFrom(s: string, r: string, a: nat, drop: char -> bool) {
    && a + |r| <= |s| && r == s[a..a + |r|]
    && (forall i :: 0 <= i < a ==> drop(s[i]))
    && (forall i :: a + |r| <= i < |s| ==> drop(s[i]))
  }

  /** Stripping only cuts droppable characters off the ends: the result is
      the slice of `s` starting at some `a`, and every character before or
      after that slice is droppable. */
  lemma {:induction false} TrimSlice(s: string, drop: char -> bool) returns (a: nat)
    ensures CutFrom(s, Trim(s, drop), a, drop)
    decreases |s|
  {
    if s == [] {
      a := 0;
    } else if drop(s[0]) {
      var b := TrimSlice(s[1..], drop);
      CutFromTail(s, Trim(s, drop), b, drop);
      a := b + 1;
    } else if drop(s[|s| - 1]) {
      a := TrimSlice(s[..|s| - 1], drop);
      CutFromInit(s, Trim(s, drop), a, drop);
    } else {
      a := 0;
    }
  }

  /** A cut from `s[1..]` is a cut from `s` one further on when `s[0]` is
      droppable. */
  lemma CutFromTail(s: string, r: string, b: nat, drop: char -> bool)
    requires s != [] && drop(s[0]) && CutFrom(s[1..], r, b, drop)
    ensures CutFrom(s, r, b + 1, drop)
  {
    assert s[1..][b..b + |r|] == s[b + 1..b + 1 + |r|];
    forall i | 0 < i < b + 1
      ensures drop(s[i])
    {
      assert s[i] == s[1..][i - 1];
    }
    forall i | b + 1 + |r| <= i < |s|
      ensures drop(s[i])
    {
      assert s[i] == s[1..][i - 1];
    }
  }

  /** A cut from `s` without its last character is a cut from `s` when that
      character is droppable. */
  lemma CutFromInit(s: string, r: string, a: nat, drop: char -> bool)
    requires s != [] && drop(s[|s| - 1]) && CutFrom(s[..|s| - 1], r, a, drop)
    ensures CutFrom(s, r, a, drop)
  {
    var init := s[..|s| - 1];
    assert init[a..a + |r|] == s[a..a + |r|];
    assert forall i :: 0 <= i < |init| ==> init[i] == s[i];
  }

  /** A text with neither end droppable, surrounded by droppable characters,
      strips to exactly that text. */
  lemma {:induction false} TrimPadded(p: string, v: string, q: string, drop: char -> bool)
    requires v != [] && !drop(v[0]) && !drop(v[|v| - 1])
    requires forall i :: 0 <= i < |p| ==> drop(p[i])
    requires forall i :: 0 <= i < |q| ==> drop(q[i])
    ensures Trim(p + v + q, drop) == v
    decreases |p| + |q|
  {
    var s := p + v + q;
    if p != [] {
      assert s[0] == p[0];
      assert s[1..] == p[1..] + v + q;
      TrimPadded(p[1..], v, q, drop);
    } else if q != [] {
      assert s == v + q;
      assert s[0] == v[0] && s[|s| - 1] == q[|q| - 1];
      assert s[..|s| - 1] == p + v + q[..|q| - 1];
      TrimPadded(p, v, q[..|q| - 1], drop);
    } else {
      assert s == v;
    }
  }

  /** `s.strip()` */
  function Strip(s: string): string {
    Trim(s, IsSpace)
  }

  /** `s.replace(c, '')` */
  function RemoveChar(s: string, c: char): (r: string)
    ensures c !in r
    ensures forall x :: x in r <==> x in s && x != c
    ensures c !in s ==> r == s
  {
    if s == [] then []
    else if s[0] == c then RemoveChar(s[1..], c)
    else [s[0]] + RemoveChar(s[1..], c)
  }

  /** Removal works piece by piece: on a concatenation it gives the removals
      of the two parts, in order. With `RemoveCharOne` (a `c` goes, any other
      character stays) this determines the result. */
  lemma {:induction false} RemoveCharAppend(x: string, y: string, c: char)
    ensures RemoveChar(x + y, c) == RemoveChar(x, c) + RemoveChar(y, c)
    decreases |x|
  {
    if x == [] {
      assert x + y == y;
    } else {
      assert (x + y)[0] == x[0];
      assert (x + y)[1..] == x[1..] + y;
      RemoveCharAppend(x[1..], y, c);
    }
  }

  lemma RemoveCharOne(d: char, c: char)
    ensures RemoveChar([d], c) == if d == c then [] else [d]
  {
    assert [d][1..] == [];
  }

  /** `s.find(c)`: the first index of `c`, or -1. */
  function IndexOf(s: string, c: char): (i: int)
    ensures -1 <= i < |s|
    ensures i == -1 <==> c !in s
    ensures 0 <= i ==> s[i] == c && c !in s[..i]
  {
    if s == [] then -1
    else if s[0] == c then 0
    else
      var j := IndexOf(s[1..], c);
      if j < 0 then -1 else j + 1
  }

  /** `s.rfind(c)`: the last index of `c`, or -1. */
  function LastIndexOf(s: string, c: char): (i: int)
    ensures -1 <= i < |s|
    ensures i == -1 <==> c !in s
    ensures 0 <= i ==> s[i] == c && c !in s[i + 1..]
  {
    if s == [] then -1
    else if s[|s| - 1] == c then |s| - 1
    else
      assert s == s[..|s| - 1] + [s[|s| - 1]];
      LastIndexOf(s[..|s| - 1], c)
  }

  /** Python's `sub in s`. */
  function Contains(s: string, sub: string): (b: bool)
    ensures b <==> exists i :: 0 <= i <= |s| && StartsWith(s[i..], sub)
  {
    if StartsWith(s, sub) then
      assert StartsWith(s[0..], sub);
      true
    else if s == [] then
      false
    else
      var b := Contains(s[1..], sub);
      assert forall i :: 1 <= i <= |s| ==> s[i..] == s[1..][i - 1..];
      if b then
        var i :| 0 <= i <= |s| - 1 && StartsWith(s[1..][i..], sub);
        assert StartsWith(s[i + 1..], sub);
        true
      else
        false
  }

  /** Python's slice `s[lo:hi]` for `0 <= lo, hi <= |s|`: empty when `hi < lo`. */
  function Slice(s: string, lo: nat, hi: nat): (r: string)
    requires lo <= |s| && hi <= |s|
    ensures lo <= hi ==> |r| == hi - lo && forall i :: 0 <= i < |r| ==> r[i] == s[lo + i]
    ensures hi < lo ==> r == []
  {
    if lo <= hi then s[lo..hi] else []
  }

  /** `sep.join(parts)` */
  function Join(parts: seq<string>, sep: string): string {
    if |parts| == 0 then ""
    else if |parts| == 1 then parts[0]
    else parts[0] + sep + Join(parts[1..], sep)
  }

  /** `s.split(sep)` for a one-character separator: at least one piece, none
      holding the separator, and joining them back with it gives `s`. */
  function Split(s: string, sep: char): (parts: seq<string>)
    ensures |parts| >= 1
    ensures forall i :: 0 <= i < |parts| ==> sep !in parts[i]
    ensures Join(parts, [sep]) == s
    decreases |s|
  {
    var i := IndexOf(s, sep);
    if i < 0 then [s]
    else
      var rest := Split(s[i + 1..], sep);
      var parts := [s[..i]] + rest;
      assert parts[1..] == rest;
      assert s == s[..i] + [sep] + s[i + 1..];
      parts
  }

  /** A split has a single piece exactly when the separator does not occur. */
  lemma SplitSingle(s: string, sep: char)
    ensures |Split(s, sep)| == 1 <==> sep !in s
    ensures sep !in s ==> Split(s, sep) == [s]
  {
  }

  /** A join of non-empty parts starts with the first part's first character
      and ends with the last part's last character. */
  lemma {:induction false} JoinEnds(parts: seq<string>, sep: string)
    requires |parts| >= 1
    requires forall i :: 0 <= i < |parts| ==> parts[i] != []
    ensures var s := Join(parts, sep);
      s != [] && s[0] == parts[0][0] && s[|s| - 1] == parts[|parts| - 1][|parts[|parts| - 1]| - 1]
    decreases |parts|
  {
    if |parts| > 1 {
      JoinEnds(parts[1..], sep);
    }
  }

  /** Splitting a join on a separator that no part contains gives the parts back. */
  lemma {:induction false} SplitJoin(parts: seq<string>, sep: char)
    requires |parts| >= 1
    requires forall i :: 0 <= i < |parts| ==> sep !in parts[i]
    ensures Split(Join(parts, [sep]), sep) == parts
    decreases |parts|
  {
    if |parts| > 1 {
      var s := Join(parts, [sep]);
      var tail := Join(parts[1..], [sep]);
      assert s == parts[0] + [sep] + tail;
      var i := IndexOf(s, sep);
      assert s[|parts[0]|] == sep;
      assert s[..|parts[0]|] == parts[0];
      assert i == |parts[0]|;
      assert s[i + 1..] == tail;
      SplitJoin(parts[1..], sep);
    } else {
      assert IndexOf(parts[0], sep) == -1;
    }
  }

  /** The first whitespace-free run of `s` (used on strings not starting with whitespace). */
  function Token(s: string): (r: string)
    ensures |r| <= |s| && r == s[..|r|]
    ensures s != [] && !IsSpace(s[0]) ==> r != []
    ensures forall i :: 0 <= i < |r| ==> !IsSpace(r[i])
    ensures |r| == |s| || IsSpace(s[|r|])
  {
    if s != [] && !IsSpace(s[0]) then [s[0]] + Token(s[1..]) else []
  }

  /** `s.split()`: the maximal whitespace-free runs of `s`, in order. */
  function Words(s: string): (ws: seq<string>)
    decreases |s|
  {
    var t := TrimLeft(s, IsSpace);
    if t == [] then []
    else
      var w := Token(t);
      assert StartsWord(w);
      [w] + Words(t[|w|..])
  }

  /** `s.split(maxsplit=1)`: the first word, then (if anything but whitespace
      follows) the rest of `s` from the second word on, unstripped at its end. */
  function SplitOnce(s: string): (parts: seq<string>)
    ensures |parts| <= 2
    ensures forall i :: 0 <= i < |parts| ==> StartsWord(parts[i])
  {
    var t := TrimLeft(s, IsSpace);
    if t == [] then []
    else
      var w := Token(t);
      assert StartsWord(w);
      var rest := TrimLeft(t[|w|..], IsSpace);
      assert rest == [] || StartsWord(rest);
      if rest == [] then [w] else [w, rest]
  }

  /** `split(maxsplit=1)` agrees with `split()`: it has two parts exactly when
      there are at least two words, its first part is the first word, and the
      first word of its second part is the second word. */
  lemma SplitOnceWords(s: string)
    ensures |SplitOnce(s)| == if |Words(s)| >= 2 then 2 else |Words(s)|
    ensures |SplitOnce(s)| >= 1 ==> SplitOnce(s)[0] == Words(s)[0]
    ensures |SplitOnce(s)| == 2 ==> Token(SplitOnce(s)[1]) == Words(s)[1]
  {
    var t := TrimLeft(s, IsSpace);
    if t != [] {
      var w := Token(t);
      var u := t[|w|..];
      assert Words(s) == [w] + Words(u);
      var rest := TrimLeft(u, IsSpace);
      if rest != [] {
        assert Words(u) == [Token(rest)] + Words(rest[|Token(rest)|..]);
      }
    }
  }

  function UpperChar(c: char): char {
    if 'a' <= c <= 'z' then (c as int - 32) as char else c
  }

  function LowerChar(c: char): char {
    if 'A' <= c <= 'Z' then (c as int + 32) as char else c
  }

  /** `s.upper()`, on ASCII letters. */
  function Upper(s: string): (r: string)
    ensures |r| == |s|
    ensures forall i :: 0 <= i < |r| ==> !('a' <= r[i] <= 'z')
    ensures forall i :: 0 <= i < |r| ==> LowerChar(r[i]) == LowerChar(s[i])
    ensures forall i :: 0 <= i < |r| ==> IsSpace(r[i]) == IsSpace(s[i])
  {
    seq(|s|, i requires 0 <= i < |s| => UpperChar(s[i]))
  }

  /** `s.lower()`, on ASCII letters. */
  function Lower(s: string): (r: string)
    ensures |r| == |s|
    ensures forall i :: 0 <= i < |r| ==> !('A' <= r[i] <= 'Z')
    ensures forall i :: 0 <= i < |r| ==> UpperChar(r[i]) == UpperChar(s[i])
  {
    seq(|s|, i requires 0 <= i < |s| => LowerChar(s[i]))
  }

  predicate IsDigit(c: char) { '0' <= c <= '9' }

  function DigitChar(d: nat): (c: char)
    requires d < 10
    ensures IsDigit(c) && c as int - '0' as int == d
  {
    ('0' as int + d) as char
  }

  /** `str(n)` for a non-negative integer: its decimal digits, no leading zero. */
  function NatToString(n: nat): (s: string)
    ensures |s| >= 1 && forall i :: 0 <= i < |s| ==> IsDigit(s[i])
    ensures |s| > 1 ==> s[0] != '0'
    decreases n
  {
    if n < 10 then [DigitChar(n)] else NatToString(n / 10) + [DigitChar(n % 10)]
  }

  /** `str(i)`: a minus sign before the digits of a negative number. */
  function IntToString(i: int): (s: string)
    ensures ' ' !in s && ',' !in s
  {
    if i < 0 then "-" + NatToString(-i) else NatToString(i)
  }

  predicate AllDigits(s: string) {
    forall i :: 0 <= i < |s| ==> IsDigit(s[i])
  }

  predicate IsIntLiteral(s: string) {
    if s != [] && s[0] == '-' then |s| > 1 && AllDigits(s[1..]) else s != [] && AllDigits(s)
  }

  function DigitsValue(s: string): nat
    requires AllDigits(s)
  {
    if s == [] then 0
    else
      var d := s[|s| - 1] as int - '0' as int;
      assert IsDigit(s[|s| - 1]);
      10 * DigitsValue(s[..|s| - 1]) + d
  }

  /** `int(s)` on an optionally signed decimal literal. */
  function IntValue(s: string): int
    requires IsIntLiteral(s)
  {
    if s[0] == '-' then -(DigitsValue(s[1..]) as int) else DigitsValue(s)
  }

  lemma {:induction false} NatToStringValue(n: nat)
    ensures DigitsValue(NatToString(n)) == n
    decreases n
  {
    if n >= 10 {
      var s := NatToString(n);
      assert s[..|s| - 1] == NatToString(n / 10);
      NatToStringValue(n / 10);
    }
  }

  /** `int(str(i)) == i` */
  lemma IntToStringRoundTrip(i: int)
    ensures IsIntLiteral(IntToString(i)) && IntValue(IntToString(i)) == i
  {
    if i < 0 {
      assert IntToString(i)[1..] == NatToString(-i);
      NatToStringValue(-i);
    } else {
      NatToStringValue(i);
    }
  }
}
