/** The decimal printers terminal_write_dec and serial_write_dec: one fills a buffer from its
    end, the other fills one from its start and sends it backwards. */
module Decimal {

  import opened Bits

  function Digit(d: nat): char
    requires d < 10
  {
    ('0' as int + d) as char
  }

  /** The digits of `value`, most significant first; nothing for 0. */
  function Digits(value: nat): (s: seq<char>)
    ensures s == [] <==> value == 0
  {
    if value == 0 then [] else Digits(value / 10) + [Digit(value % 10)]
  }

  /** How a number is printed. */
  function Printed(value: nat): seq<char> {
    if value == 0 then ['0'] else Digits(value)
  }

  predicate AllDigits(s: seq<char>) {
    forall i | 0 <= i < |s| :: '0' <= s[i] <= '9'
  }

  /** The number a string of digits stands for. */
  function Reading(s: seq<char>): nat
    requires AllDigits(s)
  {
    if s == [] then 0
    else
      10 * Reading(s[..|s| - 1]) + (s[|s| - 1] as int - '0' as int)
  }

  lemma {:induction false} DigitsAreDigits(value: nat)
    ensures AllDigits(Digits(value))
    ensures value > 0 ==> Digits(value)[0] != '0'
  {
    if value > 0 { DigitsAreDigits(value / 10); }
  }

  lemma {:induction false} DigitsRead(value: nat)
    ensures AllDigits(Digits(value)) && Reading(Digits(value)) == value
  {
    DigitsAreDigits(value);
    if value > 0 {
      DigitsRead(value / 10);
      assert Digits(value)[..|Digits(value)| - 1] == Digits(value / 10);
    }
  }

  /** What is printed reads back as the value and has no leading zero, except for 0 itself. */
  lemma PrintedReads(value: nat)
    ensures AllDigits(Printed(value)) && Reading(Printed(value)) == value
    ensures Printed(value) != [] && (Printed(value)[0] == '0' <==> value == 0)
  {
    DigitsRead(value);
    DigitsAreDigits(value);
    if value == 0 {
      assert ['0'][..0] == [];
      assert Reading(['0'][..0]) == 0;
    }
  }

  function Pow10(k: nat): nat { if k == 0 then 1 else 10 * Pow10(k - 1) }

  lemma {:induction false} DigitsFit(value: nat, k: nat)
    requires value < Pow10(k)
    ensures |Digits(value)| <= k
  {
    if value > 0 { DigitsFit(value / 10, k - 1); }
  }

  /** 2^64 < 10^20: twenty digits are enough. */
  lemma TwentyDigits(value: u64)
    ensures |Digits(value)| <= 20
  {
    assert Pow10(5) == 100000;
    assert Pow10(10) == 10000000000;
    assert Pow10(15) == 1000000000000000;
    assert Pow10(20) == 100000000000000000000;
    DigitsFit(value, 20);
  }

  /** `done` are the last digits of `value`, and `rest` has those before. */
  predicate Done(value: nat, rest: nat, done: seq<char>) { Digits(value) == Digits(rest) + done }

  /** One round of both loops. */
  lemma OneMoreDigit(value: nat, rest: nat, done: seq<char>)
    requires rest > 0 && Done(value, rest, done)
    ensures Done(value, rest / 10, [Digit(rest % 10)] + done)
    ensures |Digits(rest / 10)| == |Digits(rest)| - 1 && rest / 10 < rest
  {
    var front, d := Digits(rest / 10), Digit(rest % 10);
    assert Digits(rest) == front + [d];
    assert front + [d] + done == front + ([d] + done);
  }

  lemma PutBefore(s: seq<char>, i: nat, c: char, end: nat)
    requires i < end <= |s|
    ensures s[i := c][i..end] == [c] + s[i + 1..end]
  {
  }

  /** The first `n` characters are `done` backwards. */
  predicate Mirrored(s: seq<char>, n: nat, done: seq<char>) {
    n == |done| <= |s| && forall k | 0 <= k < n :: s[k] == done[n - 1 - k]
  }

  lemma OneMoreMirrored(s: seq<char>, n: nat, done: seq<char>, c: char)
    requires Mirrored(s, n, done) && n < |s|
    ensures Mirrored(s[n := c], n + 1, [c] + done)
  {
  }

  lemma MirrorSize(s: seq<char>, n: nat, done: seq<char>)
    requires Mirrored(s, n, done)
    ensures |done| == n <= |s|
  {
  }

  lemma NextOut(s: seq<char>, n: nat, done: seq<char>, i: nat, out: seq<char>)
    requires Mirrored(s, n, done) && i < n && |out| == n - 1 - i && out == done[..|out|]
    ensures out + [s[i]] == done[..|out| + 1]
  {
  }

  lemma SomeDigit(n: nat)
    ensures n > 0 ==> |Digits(n)| > 0
  {
  }

  lemma AllDone(value: nat, done: seq<char>)
    ensures Done(value, value, [])
    ensures Done(value, 0, done) ==> done == Digits(value)
  {
  }

  /** terminal_write_dec: the guard `i > 0` never cuts a number short. */
  method TerminalWriteDec(value: u64) returns (out: seq<char>)
    ensures out == Printed(value)
  {
    if value == 0 { return ['0']; }
    hide Digits, Digit, Done;
    TwentyDigits(value);
    AllDone(value, []);
    var dec := new char[21];
    var i := 20;
    dec[i] := '\0';
    var rest: nat := value;
    ghost var done: seq<char> := [];
    while rest > 0 && i > 0
      invariant 0 <= i <= 20 && |Digits(rest)| <= i && dec[..][i..20] == done
      invariant Done(value, rest, done)
    {
      OneMoreDigit(value, rest, done);
      ghost var before := dec[..];
      i := i - 1;
      dec[i] := Digit(rest % 10);
      assert dec[..] == before[i := dec[i]];
      PutBefore(before, i, dec[i], 20);
      done := [dec[i]] + done;
      rest := rest / 10;
    }
    SomeDigit(rest);
    AllDone(value, done);
    out := dec[..][i..20];
  }

  /** serial_write_dec: the buffer holds the digits least significant first. */
  method SerialWriteDec(value: u64) returns (out: seq<char>)
    ensures out == Printed(value)
  {
    if value == 0 { return ['0']; }
    hide Digits, Digit, Done, Mirrored;
    TwentyDigits(value);
    AllDone(value, []);
    var buffer := new char[20];
    var pos := 0;
    var rest: nat := value;
    ghost var done: seq<char> := [];
    while rest > 0
      invariant 0 <= pos <= 20 && pos + |Digits(rest)| <= 20
      invariant Mirrored(buffer[..], pos, done)
      invariant Done(value, rest, done)
    {
      OneMoreDigit(value, rest, done);
      ghost var before := buffer[..];
      buffer[pos] := Digit(rest % 10);
      assert buffer[..] == before[pos := buffer[pos]];
      OneMoreMirrored(before, pos, done, buffer[pos]);
      done := [buffer[pos]] + done;
      pos := pos + 1;
      rest := rest / 10;
    }
    AllDone(value, done);
    ghost var bs := buffer[..];
    MirrorSize(bs, pos, done);
    out := [];
    var i := pos - 1;
    while i >= 0
      invariant -1 <= i < pos && |out| == pos - 1 - i <= |done| && out == done[..|out|]
      invariant buffer[..] == bs && Mirrored(bs, pos, done)
    {
      NextOut(bs, pos, done, i, out);
      out := out + [buffer[i]];
      i := i - 1;
    }
    assert done[..|out|] == done;
  }
}
