/** The Python string methods the application relies on, with ASCII
 *  semantics: `lower`, `strip`, `split` on one separator character,
 *  `join`, and `replace` of one character by a string.
 */
module Strings {
  import opened Records


  predicate IsUpper(c: char) {
    'A' <= c <= 'Z'
  }

  function LowerChar(c: char): char {
    if IsUpper(c) then (c as int + 32) as char else c
  }

  /** `s.lower()`. */
  function Lower(s: string): string {
    seq(|s|, i requires 0 <= i < |s| => LowerChar(s[i]))
  }

  lemma LowerIsLowerCase(s: string)
    ensures |Lower(s)| == |s|
    ensures forall i :: 0 <= i < |s| ==> !IsUpper(Lower(s)[i])
    ensures forall i :: 0 <= i < |s| ==> !IsUpper(s[i]) ==> Lower(s)[i] == s[i]
    ensures Lower(Lower(s)) == Lower(s)
  {
  }

  /** `str.isspace` restricted to ASCII. */
  predicate IsSpace(c: char) {
    c == ' ' || '\t' <= c <= '\r' || '\U{1C}' <= c <= '\U{1F}'
  }

  /** Number of whitespace characters at the front of `s`. */
  function LeadingSpaces(s: string): (n: nat)
    ensures n <= |s|
    ensures forall i :: 0 <= i < n ==> IsSpace(s[i])
    ensures n < |s| ==> !IsSpace(s[n])
  {
    if s != [] && IsSpace(s[0]) then 1 + LeadingSpaces(s[1..]) else 0
  }

  function StripLeft(s: string): (r: string)
    ensures r == s[LeadingSpaces(s)..]
  {
    if s != [] && IsSpace(s[0]) then StripLeft(s[1..]) else s
  }

  function StripRight(s: string): (r: string)
    ensures |r| <= |s| && r == s[..|r|]
    ensures forall i :: |r| <= i < |s| ==> IsSpace(s[i])
    ensures r != [] ==> !IsSpace(r[|r| - 1])
  {
    if s != [] && IsSpace(s[|s| - 1]) then StripRight(s[..|s| - 1]) else s
  }

  /** `s.strip()`: the infix left once the whitespace at both ends is
   *  removed. */
  function Strip(s: string): (r: string)
    ensures LeadingSpaces(s) + |r| <= |s| && r == s[LeadingSpaces(s)..LeadingSpaces(s) + |r|]
    ensures forall k :: LeadingSpaces(s) + |r| <= k < |s| ==> IsSpace(s[k])
    ensures r != [] ==> !IsSpace(r[0]) && !IsSpace(r[|r| - 1])
  {
    StripRight(StripLeft(s))
  }

  /** A character that is not whitespace survives `strip`, at its place
   *  shifted by the leading whitespace. */
  lemma StripKeeps(s: string, i: int)
    requires 0 <= i < |s| && !IsSpace(s[i])
    ensures LeadingSpaces(s) <= i < LeadingSpaces(s) + |Strip(s)|
    ensures Strip(s)[i - LeadingSpaces(s)] == s[i]
  {
  }

  /** Every character of `strip`'s result comes from the input. */
  lemma StripFrom(s: string, k: int)
    requires 0 <= k < |Strip(s)|
    ensures Strip(s)[k] in s
  {
    var lead := LeadingSpaces(s);
    assert Strip(s)[k] == s[lead + k];
  }

  /** Text between whitespace-only strings, with no whitespace at either
   *  end, is what `strip` returns. */
  lemma StripSurrounded(w1: string, t: string, w2: string)
    requires forall i :: 0 <= i < |w1| ==> IsSpace(w1[i])
    requires forall i :: 0 <= i < |w2| ==> IsSpace(w2[i])
    requires t == [] || (!IsSpace(t[0]) && !IsSpace(t[|t| - 1]))
    ensures Strip(w1 + t + w2) == t
  {
    var s := w1 + t + w2;
    var lead := LeadingSpaces(s);
    var r := Strip(s);
    if t == [] {
      assert forall i :: 0 <= i < |s| ==> IsSpace(s[i]) by {
        assert s == w1 + w2;
      }
    } else {
      assert s[|w1|] == t[0];
      assert lead == |w1|;
      assert s[|w1| + |t| - 1] == t[|t| - 1];
      assert |r| == |t|;
      assert s[|w1|..|w1| + |t|] == t;
    }
  }

  /** A string with no whitespace at either end strips to itself. */
  lemma StripTrimmed(s: string)
    requires s == [] || (!IsSpace(s[0]) && !IsSpace(s[|s| - 1]))
    ensures Strip(s) == s
  {
  }

  /** `s.split(sep)` for a one-character separator: always at least one
   *  piece, and no piece contains the separator. */
  function Split(s: string, sep: char): (pieces: seq<string>)
    ensures |pieces| >= 1
    ensures forall k :: 0 <= k < |pieces| ==> sep !in pieces[k]
  {
    if sep !in s then [s]
    else
      var i := FirstIndex(s, sep);
      [s[..i]] + Split(s[i + 1..], sep)
  }

  /** `sep.join(items)`. */
  function Join(items: seq<string>, sep: string): string {
    if items == [] then ""
    else if |items| == 1 then items[0]
    else items[0] + sep + Join(items[1..], sep)
  }

  /** Joining the pieces of a split with the separator gives the string back. */
  lemma {:induction false} JoinSplit(s: string, sep: char)
    ensures Join(Split(s, sep), [sep]) == s
  {
    if sep in s {
      var i := FirstIndex(s, sep);
      JoinSplit(s[i + 1..], sep);
      assert s == s[..i] + [sep] + s[i + 1..];
    }
  }

  /** Splitting a join of separator-free items gives the items back. */
  lemma {:induction false} SplitJoin(items: seq<string>, sep: char)
    requires items != []
    requires forall k :: 0 <= k < |items| ==> sep !in items[k]
    ensures Split(Join(items, [sep]), sep) == items
  {
    if |items| > 1 {
      var rest := Join(items[1..], [sep]);
      var s := items[0] + [sep] + rest;
      assert sep in s by { assert s[|items[0]|] == sep; }
      IndexOfPrefix(items[0], sep, rest);
      assert s[..|items[0]|] == items[0];
      assert s[|items[0]| + 1..] == rest;
      SplitJoin(items[1..], sep);
    }
  }

  lemma IndexOfPrefix(a: string, c: char, b: string)
    requires c !in a
    ensures c in a + [c] + b && FirstIndex(a + [c] + b, c) == |a|
  {
    var s := a + [c] + b;
    assert s[|a|] == c;
    assert s[..|a|] == a;
  }

  /** `s.replace(c, repl)` for a one-character pattern. */
  function ReplaceChar(s: string, c: char, repl: string): string {
    if s == [] then []
    else (if s[0] == c then repl else [s[0]]) + ReplaceChar(s[1..], c, repl)
  }

  lemma {:induction false} ReplaceCharRemoves(s: string, c: char, repl: string)
    requires c !in repl
    ensures c !in ReplaceChar(s, c, repl)
  {
    if s != [] {
      ReplaceCharRemoves(s[1..], c, repl);
    }
  }

  /** Replacing by text without upper-case letters in text without them
   *  leaves none. */
  lemma {:induction false} ReplaceCharNoUpper(s: string, c: char, repl: string)
    requires forall i :: 0 <= i < |s| ==> !IsUpper(s[i])
    requires forall i :: 0 <= i < |repl| ==> !IsUpper(repl[i])
    ensures forall i :: 0 <= i < |ReplaceChar(s, c, repl)| ==> !IsUpper(ReplaceChar(s, c, repl)[i])
  {
    if s != [] {
      ReplaceCharNoUpper(s[1..], c, repl);
      var head := if s[0] == c then repl else [s[0]];
      var rest := ReplaceChar(s[1..], c, repl);
      assert forall i :: 0 <= i < |head + rest| ==>
        (head + rest)[i] == if i < |head| then head[i] else rest[i - |head|];
    }
  }

  // ---------------------------------------------------------------------
  // Decimal digits (`str.isdigit` on ASCII, `int` and `str` on naturals).

  predicate IsDigit(c: char) {
    '0' <= c <= '9'
  }

  function DigitValue(c: char): nat
    requires IsDigit(c)
  {
    c as int - '0' as int
  }

  predicate AllDigits(s: string) {
    forall i :: 0 <= i < |s| ==> IsDigit(s[i])
  }

  /** The number a string of decimal digits denotes. */
  function DigitsValue(ds: string): nat
    requires AllDigits(ds)
  {
    if ds == [] then 0 else DigitsValue(ds[..|ds| - 1]) * 10 + DigitValue(ds[|ds| - 1])
  }

  /** The decimal digits of `n`, most significant first, without leading
   *  zeros. */
  function DigitsOf(n: nat): (ds: string)
    ensures ds != [] && AllDigits(ds)
    ensures |ds| > 1 ==> ds[0] != '0'
  {
    if n < 10 then [('0' as int + n) as char]
    else DigitsOf(n / 10) + [('0' as int + n % 10) as char]
  }

  /** `str(n)`. */
  function Decimal(n: int): string {
    if n < 0 then "-" + DigitsOf(-n) else DigitsOf(n)
  }

  lemma {:induction false} DigitsOfValue(n: nat)
    ensures DigitsValue(DigitsOf(n)) == n
  {
    if n >= 10 {
      DigitsOfValue(n / 10);
      var ds := DigitsOf(n);
      assert ds[..|ds| - 1] == DigitsOf(n / 10);
    }
  }

  /** `''.join(filter(str.isdigit, s))`. */
  function Digits(s: string): (ds: string)
    ensures AllDigits(ds) && |ds| <= |s|
  {
    if s == [] then []
    else (if IsDigit(s[0]) then [s[0]] else []) + Digits(s[1..])
  }

  lemma {:induction false} DigitsAppend(s: string, t: string)
    ensures Digits(s + t) == Digits(s) + Digits(t)
  {
    if s == [] {
      assert s + t == t;
    } else {
      assert (s + t)[1..] == s[1..] + t;
      DigitsAppend(s[1..], t);
    }
  }

  lemma {:induction false} DigitsOfDigitString(ds: string)
    requires AllDigits(ds)
    ensures Digits(ds) == ds
  {
    if ds != [] {
      DigitsOfDigitString(ds[1..]);
    }
  }

  /** `t` occurs in `s` starting at position `i`. */
  predicate OccursAt(s: string, t: string, i: int) {
    0 <= i && i + |t| <= |s| && s[i..i + |t|] == t
  }

  /** `t in s` for strings: `t` occurs somewhere in `s`. */
  predicate Contains(s: string, t: string) {
    exists i :: 0 <= i <= |s| && OccursAt(s, t, i)
  }

  lemma ContainsPrefix(t: string, u: string)
    ensures Contains(t + u, t)
  {
    assert OccursAt(t + u, t, 0);
  }

  // ---------------------------------------------------------------------
  // More on `replace` and `rsplit`.

  /** Position of the last occurrence of `c` in `s`. */
  function LastIndexOf(s: string, c: char): (i: nat)
    requires c in s
    ensures i < |s| && s[i] == c && c !in s[i + 1..]
  {
    if s[|s| - 1] == c then |s| - 1
    else
      assert c in s[..|s| - 1];
      var j := LastIndexOf(s[..|s| - 1], c);
      assert s[j + 1..] == s[..|s| - 1][j + 1..] + [s[|s| - 1]];
      j
  }

  /** The last occurrence of `c` in `a + [c] + b`, where `b` has none, is
   *  the one just after `a`. */
  lemma LastIndexOfSuffix(a: string, c: char, b: string)
    requires c !in b
    ensures c in a + [c] + b && LastIndexOf(a + [c] + b, c) == |a|
  {
    var s := a + [c] + b;
    assert s[|a|] == c;
    assert s[|a| + 1..] == b;
  }

  lemma ReplaceCharAbsent(s: string, c: char, repl: string)
    requires c !in s
    ensures ReplaceChar(s, c, repl) == s
  {
  }

  /** `s.replace(c, repl) == repl.join(s.split(c))`: each separator is
   *  replaced and nothing else changes. */
  lemma {:induction false} ReplaceCharIsJoinSplit(s: string, c: char, repl: string)
    ensures ReplaceChar(s, c, repl) == Join(Split(s, c), repl)
  {
    if s == [] {
    } else if c !in s {
      ReplaceCharAbsent(s, c, repl);
    } else if s[0] == c {
      ReplaceCharIsJoinSplit(s[1..], c, repl);
      assert FirstIndex(s, c) == 0;
      assert s[..0] == [];
      var rest := Split(s[1..], c);
      assert Split(s, c) == [[]] + rest;
    } else {
      ReplaceCharIsJoinSplit(s[1..], c, repl);
      SplitSkipsHead(s, c);
      var rest := Split(s[1..], c);
      JoinConsHead([s[0]], rest, repl);
    }
  }

  /** Splitting after a first character that is not the separator puts that
   *  character in front of the first piece. */
  lemma SplitSkipsHead(s: string, c: char)
    requires s != [] && s[0] != c && c in s
    ensures Split(s, c) == [[s[0]] + Split(s[1..], c)[0]] + Split(s[1..], c)[1..]
  {
    var i := FirstIndex(s, c);
    assert c in s[1..];
    var j := FirstIndex(s[1..], c);
    IndexOfTail(s, c);
    assert s[..i] == [s[0]] + s[1..][..j];
    assert s[i + 1..] == s[1..][j + 1..];
  }

  lemma IndexOfTail(s: string, c: char)
    requires s != [] && s[0] != c && c in s
    ensures c in s[1..] && FirstIndex(s, c) == FirstIndex(s[1..], c) + 1
  {
    assert c in s[1..];
  }

  lemma JoinConsHead(x: string, items: seq<string>, sep: string)
    requires items != []
    ensures Join([x + items[0]] + items[1..], sep) == x + Join(items, sep)
  {
    var t := [x + items[0]] + items[1..];
    assert t[1..] == items[1..];
  }
}
