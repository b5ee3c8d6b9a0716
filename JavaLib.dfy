/** The pieces of the Java platform that the graph code relies on, with
    the Java semantics written out: 32-bit `int` arithmetic,
    `Integer.toString`, `Integer.parseInt`, `String.split` with a
    one-character separator, and the line splitting of
    `BufferedReader.readLine`. */
module JavaLib {
  import opened Wrappers

  /** Java's `int` (and the value of a non-null `Integer`). */
  type Int32 = x: int | -0x8000_0000 <= x < 0x8000_0000

  predicate InInt32Range(x: int) {
    -0x8000_0000 <= x < 0x8000_0000
  }

  /** Two's-complement wrap-around: the `int` Java produces for the
      mathematical value x. */
  function Wrap32(x: int): (r: Int32)
    ensures (x - r) % 0x1_0000_0000 == 0
    ensures InInt32Range(x) ==> r == x
  {
    (x + 0x8000_0000) % 0x1_0000_0000 - 0x8000_0000
  }

  /** Java's `a - b` on two `int`s. It is zero exactly when a == b, and it
      is the true difference only when that difference fits in an `int`. */
  function Sub32(a: Int32, b: Int32): (r: Int32)
    ensures r == 0 <==> a == b
    ensures InInt32Range(a - b) ==> r == a - b
  {
    Wrap32(a - b)
  }

  /** `Integer.compare(a, b)`: a comparison whose sign always agrees with
      the numeric order. */
  function Compare(a: Int32, b: Int32): (r: Int32)
    ensures r < 0 <==> a < b
    ensures r == 0 <==> a == b
    ensures r > 0 <==> a > b
  {
    if a < b then -1 else if a == b then 0 else 1
  }

  /** Subtraction is not a valid comparison on `int`: 0 - Integer.MIN_VALUE
      wraps to a negative value, so it ranks 0 below Integer.MIN_VALUE. */
  lemma Sub32MisordersExtremes()
    ensures Sub32(0, -0x8000_0000) < 0
    ensures Compare(0, -0x8000_0000) > 0
  {
    assert Wrap32(0x8000_0000) == -0x8000_0000;
  }

  // ---------------------------------------------------------------------
  // Decimal text of integers

  predicate IsDigit(c: char) {
    '0' <= c <= '9'
  }

  predicate AllDigits(s: string) {
    forall i :: 0 <= i < |s| ==> IsDigit(s[i])
  }

  /** The decimal digits of n, most significant first, with no leading zero. */
  function NatDigits(n: nat): (s: string)
    ensures s != [] && AllDigits(s)
  {
    var last := [('0' as int + n % 10) as char];
    if n < 10 then last else NatDigits(n / 10) + last
  }

  /** The number a non-empty run of decimal digits denotes. */
  function DigitsValue(s: string): nat
    requires AllDigits(s)
  {
    if s == [] then 0
    else
      var last := s[|s| - 1];
      assert IsDigit(last);
      DigitsValue(s[..|s| - 1]) * 10 + (last as int - '0' as int)
  }

  lemma {:induction false} DigitsValueOfNatDigits(n: nat)
    ensures DigitsValue(NatDigits(n)) == n
  {
    var last := [('0' as int + n % 10) as char];
    if n >= 10 {
      var p := NatDigits(n / 10);
      DigitsValueOfNatDigits(n / 10);
      assert (p + last)[..|p + last| - 1] == p;
    }
  }

  /** `Integer.toString(x)` (and `StringBuilder.append(int)`): a minus sign
      for a negative value, then the digits of its magnitude. */
  function IntToString(x: int): (s: string)
    ensures s != []
    ensures x >= 0 ==> AllDigits(s)
    ensures x < 0 ==> s[0] == '-' && AllDigits(s[1..])
  {
    if x < 0 then "-" + NatDigits(-x) else NatDigits(x)
  }

  /** `Integer.parseInt(s)`: an optional '-' or '+', at least one decimal
      digit, and a value that fits in an `int`. Anything else makes Java
      throw NumberFormatException, which is None here. */
  function ParseInt(s: string): Option<Int32>
  {
    if s == [] then None
    else
      var signed := s[0] == '-' || s[0] == '+';
      var digits := if signed then s[1..] else s;
      if digits == [] || !AllDigits(digits) then None
      else
        var magnitude: int := DigitsValue(digits);
        var v := if s[0] == '-' then 0 - magnitude else magnitude;
        if InInt32Range(v) then Some(v) else None
  }

  /** Parsing undoes printing for every `int`, negative ones included. */
  lemma ParseIntToString(x: Int32)
    ensures ParseInt(IntToString(x)) == Some(x)
  {
    var s := IntToString(x);
    if x < 0 {
      var m: nat := 0 - x as int;
      DigitsValueOfNatDigits(m);
      assert s[0] == '-' && s[1..] == NatDigits(m);
    } else {
      DigitsValueOfNatDigits(x);
      assert s == NatDigits(x) && IsDigit(s[0]);
    }
  }

  // ---------------------------------------------------------------------
  // String.split with a one-character separator

  /** Index of the first c in s, or |s| when there is none. */
  function Find(s: string, c: char): (i: nat)
    ensures i <= |s|
    ensures i < |s| ==> s[i] == c
    ensures forall j :: 0 <= j < i ==> s[j] != c
  {
    if s == [] then 0 else if s[0] == c then 0 else 1 + Find(s[1..], c)
  }

  /** The pieces of s between occurrences of c, empty pieces included. */
  function Fields(s: string, c: char): (r: seq<string>)
    ensures forall t :: t in r ==> c !in t
    decreases |s|
  {
    var i := Find(s, c);
    if i == |s| then [s] else [s[..i]] + Fields(s[i + 1..], c)
  }

  function DropTrailingEmpty(xs: seq<string>): (r: seq<string>)
    ensures forall t :: t in r ==> t in xs
  {
    if xs != [] && xs[|xs| - 1] == [] then DropTrailingEmpty(xs[..|xs| - 1]) else xs
  }

  /** `s.split(c)` where c is not a regular-expression metacharacter: a
      string with no c splits into [s] (so "" gives [""]); otherwise into
      its fields with the trailing empty ones removed. */
  function Split(s: string, c: char): (r: seq<string>)
    ensures forall t :: t in r ==> c !in t
  {
    if Find(s, c) == |s| then [s] else DropTrailingEmpty(Fields(s, c))
  }

  /** Tokens that split back intact: none empty, none holding c. */
  predicate Separable(toks: seq<string>, c: char) {
    forall t :: t in toks ==> t != [] && c !in t
  }

  /** Each token followed by c, as `append(x).append(";")` in a loop writes. */
  function Terminated(toks: seq<string>, c: char): string
  {
    if toks == [] then [] else toks[0] + [c] + Terminated(toks[1..], c)
  }

  /** Tokens separated (not followed) by c. */
  function Joined(toks: seq<string>, c: char): string
    requires toks != []
  {
    if |toks| == 1 then toks[0] else toks[0] + [c] + Joined(toks[1..], c)
  }

  lemma {:induction false} TerminatedConcat(a: seq<string>, b: seq<string>, c: char)
    ensures Terminated(a + b, c) == Terminated(a, c) + Terminated(b, c)
  {
    if a == [] {
      assert a + b == b;
    } else {
      assert (a + b)[1..] == a[1..] + b;
      TerminatedConcat(a[1..], b, c);
    }
  }

  lemma FindAbsent(s: string, c: char)
    requires c !in s
    ensures Find(s, c) == |s|
  {
  }

  lemma FieldsAfter(t: string, rest: string, c: char)
    requires c !in t
    ensures Fields(t + [c] + rest, c) == [t] + Fields(rest, c)
  {
    var s := t + [c] + rest;
    assert s[|t|] == c;
    var i := Find(s, c);
    assert i == |t|;
    assert s[..i] == t;
    assert s[i + 1..] == rest;
  }

  lemma {:induction false} FieldsOfTerminated(toks: seq<string>, c: char)
    requires Separable(toks, c)
    ensures Fields(Terminated(toks, c), c) == toks + [[]]
  {
    if toks == [] {
      assert Terminated(toks, c) == [];
    } else {
      var head, tail := toks[0], toks[1..];
      var rest := Terminated(tail, c);
      assert Terminated(toks, c) == head + [c] + rest;
      assert head in toks;
      assert Separable(tail, c) by {
        forall t | t in tail
          ensures t != [] && c !in t
        {
          assert t in toks;
        }
      }
      FieldsAfter(head, rest, c);
      FieldsOfTerminated(tail, c);
      assert toks + [[]] == [head] + (tail + [[]]);
    }
  }

  lemma {:induction false} FieldsOfJoined(toks: seq<string>, c: char)
    requires toks != [] && Separable(toks, c)
    ensures Fields(Joined(toks, c), c) == toks
  {
    if |toks| == 1 {
      FindAbsent(toks[0], c);
    } else {
      assert forall t :: t in toks[1..] ==> t in toks;
      FieldsAfter(toks[0], Joined(toks[1..], c), c);
      FieldsOfJoined(toks[1..], c);
      assert toks == [toks[0]] + toks[1..];
    }
  }

  /** Splitting what the writer produced gives the tokens back. */
  lemma SplitTerminated(toks: seq<string>, c: char)
    requires toks != [] && Separable(toks, c)
    ensures Split(Terminated(toks, c), c) == toks
  {
    var s := Terminated(toks, c);
    assert s == toks[0] + [c] + Terminated(toks[1..], c);
    assert s[|toks[0]|] == c;
    assert Find(s, c) < |s|;
    FieldsOfTerminated(toks, c);
    assert (toks + [[]])[..|toks|] == toks;
    assert DropTrailingEmpty(toks + [[]]) == DropTrailingEmpty(toks);
    assert toks[|toks| - 1] in toks;
    assert DropTrailingEmpty(toks) == toks;
  }

  lemma SplitJoined(toks: seq<string>, c: char)
    requires toks != [] && Separable(toks, c)
    ensures Split(Joined(toks, c), c) == toks
  {
    var s := Joined(toks, c);
    FieldsOfJoined(toks, c);
    if |toks| == 1 {
      FindAbsent(s, c);
    } else {
      assert s[|toks[0]|] == c;
      assert toks[|toks| - 1] in toks;
    }
  }

  // ---------------------------------------------------------------------
  // BufferedReader.readLine

  predicate IsLineBreak(ch: char) {
    ch == '\n' || ch == '\r'
  }

  predicate NoLineBreak(s: string) {
    forall i :: 0 <= i < |s| ==> !IsLineBreak(s[i])
  }

  /** Index of the first line terminator in s, or |s| when there is none. */
  function FindLineBreak(s: string): (i: nat)
    ensures i <= |s|
    ensures i < |s| ==> IsLineBreak(s[i])
    ensures forall j :: 0 <= j < i ==> !IsLineBreak(s[j])
  {
    if s == [] then 0 else if IsLineBreak(s[0]) then 0 else 1 + FindLineBreak(s[1..])
  }

  /** The successive results of `readLine()` on a reader over s, up to the
      first null: a line ends at "\n", "\r" or "\r\n", and a last line
      without terminator still counts when it is not empty. */
  function ReadLines(s: string): seq<string>
    decreases |s|
  {
    if s == [] then []
    else
      var i := FindLineBreak(s);
      if i == |s| then [s]
      else
        var next := if s[i] == '\r' && i + 1 < |s| && s[i + 1] == '\n' then i + 2 else i + 1;
        [s[..i]] + ReadLines(s[next..])
  }

  lemma ReadLinesAfter(line: string, rest: string)
    requires NoLineBreak(line)
    ensures ReadLines(line + "\n" + rest) == [line] + ReadLines(rest)
  {
    var s := line + "\n" + rest;
    assert s[|line|] == '\n';
    var i := FindLineBreak(s);
    assert i == |line|;
    assert s[..i] == line;
    assert s[i + 1..] == rest;
  }

  /** The three lines of a file whose last line has no terminator. */
  lemma ReadThreeLines(l1: string, l2: string, l3: string)
    requires NoLineBreak(l1) && NoLineBreak(l2) && NoLineBreak(l3) && l3 != []
    ensures ReadLines(l1 + "\n" + l2 + "\n" + l3) == [l1, l2, l3]
  {
    var rest := l2 + "\n" + l3;
    ReadLinesAfter(l2, l3);
    ReadLastLine(l3);
    assert ReadLines(rest) == [l2, l3];
    ReadLinesAfter(l1, rest);
    JoinAssoc(l1, l2, l3);
  }

  lemma JoinAssoc(l1: string, l2: string, l3: string)
    ensures l1 + "\n" + l2 + "\n" + l3 == l1 + "\n" + (l2 + "\n" + l3)
  {
  }

  /** A last line without terminator is read as it is. */
  lemma ReadLastLine(line: string)
    requires NoLineBreak(line) && line != []
    ensures ReadLines(line) == [line]
  {
    assert FindLineBreak(line) == |line|;
  }
}
