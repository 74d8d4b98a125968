/** The keyboard ring buffer of src/keyboard.c, shared between the interrupt handler and the
    reader. First the reader's loads and stores as single steps with interrupts between any two
    of them, then the functions as they run undisturbed. */
module Keyboard {

  const KB_BUFFER_SIZE: nat := 128

  type Index = x: nat | x < 128

  // ------------------------------------------------------------------ interleaved

  /** Where the reader is inside keyboard_get_char. */
  datatype Reader =
    | Outside
    | LoadedRead(r: Index)          // kb_buffer_read is loaded for the comparison
    | NotEmpty                      // it differed from kb_buffer_write
    | Holding(c: char)              // the character is loaded
    | Advancing(c: char, next: Index) // kb_buffer_read is loaded again and advanced, not yet stored

  /** The shared variables, the reader, and what was accepted and delivered so far. */
  datatype Ring = Ring(buffer: seq<char>, read: Index, write: Index, reader: Reader,
                       accepted: seq<char>, delivered: seq<char>, dropped: nat)

  function Next(i: Index): Index { (i + 1) % 128 }

  /** The slot `i` places behind slot `r`. */
  function Slot(r: Index, i: nat): Index
    requires i <= 128
  {
    if r + i < 128 then r + i else r + i - 128
  }

  /** kb_buffer_put, which runs to its end inside an interrupt. */
  function Interrupt(s: Ring, c: char): Ring
    requires |s.buffer| == 128
  {
    if Next(s.write) != s.read then
      s.(buffer := s.buffer[s.write := c], write := Next(s.write), accepted := s.accepted + [c])
    else s.(dropped := s.dropped + 1)
  }

  /** The reader's next load or store. */
  function ReaderStep(s: Ring): Ring
    requires |s.buffer| == 128
  {
    match s.reader
    case Outside => s.(reader := LoadedRead(s.read))
    case LoadedRead(r) => s.(reader := if r == s.write then Outside else NotEmpty)
    case NotEmpty => s.(reader := Holding(s.buffer[s.read]))
    case Holding(c) => s.(reader := Advancing(c, Next(s.read)))
    case Advancing(c, next) => s.(read := next, reader := Outside, delivered := s.delivered + [c])
  }

  /** The characters accepted and not yet delivered. */
  function Pending(s: Ring): seq<char>
    requires |s.delivered| <= |s.accepted|
  {
    s.accepted[|s.delivered|..]
  }

  ghost predicate Inv(s: Ring) {
    && |s.buffer| == 128 && |s.delivered| <= |s.accepted|
    && s.delivered == s.accepted[..|s.delivered|]
    && |Pending(s)| <= 127 && s.write == Slot(s.read, |Pending(s)|)
    && (forall i: nat | i < |Pending(s)| :: s.buffer[Slot(s.read, i)] == Pending(s)[i])
    && match s.reader
       case Outside => true
       case LoadedRead(r) => r == s.read
       case NotEmpty => Pending(s) != []
       case Holding(c) => Pending(s) != [] && c == Pending(s)[0]
       case Advancing(c, next) => Pending(s) != [] && c == Pending(s)[0] && next == Next(s.read)
  }

  lemma Slots(r: Index, i: nat, n: nat)
    requires i <= n <= 127
    ensures Slot(r, 0) == r && Next(Slot(r, n)) == Slot(r, n + 1) && Slot(Next(r), i) == Slot(r, i + 1)
    ensures Next(Slot(r, n)) == r <==> n == 127
    ensures i < n ==> Slot(r, i) != Slot(r, n)
  {
  }

  lemma InterruptKeeps(s: Ring, c: char)
    requires Inv(s)
    ensures Inv(Interrupt(s, c))
    ensures Interrupt(s, c).dropped > s.dropped <==> |Pending(s)| == 127
  {
    hide Slot, Next;
    var s', p := Interrupt(s, c), Pending(s);
    Slots(s.read, 0, |p|);
    if Next(s.write) != s.read {
      assert s'.accepted[|s.delivered|..] == p + [c];
      assert s'.accepted[..|s.delivered|] == s.accepted[..|s.delivered|];
      forall i: nat | i < |Pending(s')| ensures s'.buffer[Slot(s.read, i)] == Pending(s')[i] {
        Slots(s.read, i, |p|);
      }
    }
  }

  lemma ReaderKeeps(s: Ring)
    requires Inv(s)
    ensures Inv(ReaderStep(s))
  {
    hide Slot, Next;
    Slots(s.read, 0, 0);
    if s.reader.Advancing? {
      var s', p := ReaderStep(s), Pending(s);
      assert Pending(s') == p[1..];
      assert s'.delivered == s.accepted[..|s.delivered| + 1];
      Slots(s.read, |p| - 1, |p| - 1);
      forall i: nat | i < |p| - 1 ensures s'.buffer[Slot(s'.read, i)] == p[1..][i] {
        Slots(s.read, i, i);
      }
    }
  }

  datatype Event = Key(c: char) | Reading

  function Apply(s: Ring, e: Event): Ring
    requires |s.buffer| == 128
  {
    match e case Key(c) => Interrupt(s, c) case Reading => ReaderStep(s)
  }

  function Run(s: Ring, es: seq<Event>): (r: Ring)
    requires |s.buffer| == 128
    ensures |r.buffer| == 128
    decreases |es|
  {
    if es == [] then s else Apply(Run(s, es[..|es| - 1]), es[|es| - 1])
  }

  /** However keys and the reader's steps interleave: what was delivered is a prefix, in order,
      of what was accepted, at most 127 characters are pending, and a key is dropped exactly
      when 127 are. */
  lemma {:induction false} RunsDeliverInOrder(s: Ring, es: seq<Event>, c: char)
    requires Inv(s)
    ensures var r := Run(s, es);
      && Inv(r) && r.delivered <= r.accepted && |Pending(r)| <= 127
      && (Interrupt(r, c).dropped > r.dropped <==> |Pending(r)| == 127)
    decreases |es|
  {
    if es != [] {
      RunsDeliverInOrder(s, es[..|es| - 1], c);
      var r := Run(s, es[..|es| - 1]);
      match es[|es| - 1]
      case Key(k) => InterruptKeeps(r, k);
      case Reading => ReaderKeeps(r);
    }
    InterruptKeeps(Run(s, es), c);
  }

  lemma ReadSteps(s: Ring)
    requires |s.buffer| == 128 && s.reader.Outside?
    ensures s.read == s.write ==> ReaderStep(ReaderStep(s)) == s
    ensures s.read != s.write ==>
      ReaderStep(ReaderStep(ReaderStep(ReaderStep(ReaderStep(s))))) ==
        s.(read := Next(s.read), delivered := s.delivered + [s.buffer[s.read]])
  {
  }

  /** A read that no key interrupts: nothing when nothing is pending, else the oldest character. */
  lemma ReadAlone(s: Ring)
    requires Inv(s) && s.reader.Outside?
    ensures Pending(s) == [] ==> ReaderStep(ReaderStep(s)) == s
    ensures Pending(s) != [] ==>
      var r := ReaderStep(ReaderStep(ReaderStep(ReaderStep(ReaderStep(s)))));
      && r.reader.Outside? && r.delivered == s.delivered + [Pending(s)[0]]
      && r.accepted == s.accepted && r.write == s.write && r.buffer == s.buffer
  {
  }

  // ------------------------------------------------------------------ the decoder

  const BACKSPACE: char := 8 as char

  /** Both tables have four rows of characters, and the same keys between them. */
  function Table(digits: string, top: string, home: string, bottom: string): string {
    "\0\0" + digits + [BACKSPACE, '\t'] + top + "\n\0" + home + "\0" + bottom + "\0*\0 "
  }

  const LOWER: string := Table("1234567890-=", "qwertyuiop[]", "asdfghjkl;'`", "\\zxcvbnm,./")
  const UPPER: string := Table("!@#$%^&*()_+", "QWERTYUIOP{}", "ASDFGHJKL:\"~", "|ZXCVBNM<>?")

  type scancode = x: nat | x < 256

  predicate ShiftPress(code: scancode) { code == 0x2A || code == 0x36 }
  predicate ShiftRelease(code: scancode) { code == 0xAA || code == 0xB6 }
  predicate CapsLock(code: scancode) { code == 0x3A }

  /** The character a scancode stands for, '\0' for none. */
  function Character(upper: bool, code: scancode): char {
    if ShiftPress(code) || ShiftRelease(code) || CapsLock(code) || code >= 0x80 || code >= |LOWER| then '\0'
    else if upper then UPPER[code] else LOWER[code]
  }

  /** Where the rows are in a table. */
  lemma RowsOf(digits: string, top: string, home: string, bottom: string, i: nat)
    requires |digits| == |top| == |home| == 12 && |bottom| == 11
    ensures var t := Table(digits, top, home, bottom);
      && |t| == 0x3A
      && (i < 12 ==> t[0x02 + i] == digits[i] && t[0x10 + i] == top[i] && t[0x1E + i] == home[i])
      && (i < 11 ==> t[0x2B + i] == bottom[i])
      && t[0x0E] == BACKSPACE && t[0x0F] == '\t' && t[0x1C] == '\n' && t[0x37] == '*' && t[0x39] == ' '
      && t[0] == t[1] == t[0x1D] == t[0x2A] == t[0x36] == t[0x38] == '\0'
  {
  }

  /** The rows of the keyboard by scancode, plain and shifted. */
  lemma Rows(i: nat)
    ensures i < 12 ==> Character(false, 0x02 + i) == "1234567890-="[i]
    ensures i < 12 ==> Character(true, 0x02 + i) == "!@#$%^&*()_+"[i]
    ensures i < 12 ==> Character(false, 0x10 + i) == "qwertyuiop[]"[i]
    ensures i < 12 ==> Character(true, 0x10 + i) == "QWERTYUIOP{}"[i]
    ensures i < 12 ==> Character(false, 0x1E + i) == "asdfghjkl;'`"[i]
    ensures i < 12 ==> Character(true, 0x1E + i) == "ASDFGHJKL:\"~"[i]
    ensures i < 11 ==> Character(false, 0x2B + i) == "\\zxcvbnm,./"[i]
    ensures i < 11 ==> Character(true, 0x2B + i) == "|ZXCVBNM<>?"[i]
  {
    hide Table;
    RowsOf("1234567890-=", "qwertyuiop[]", "asdfghjkl;'`", "\\zxcvbnm,./", i);
    RowsOf("!@#$%^&*()_+", "QWERTYUIOP{}", "ASDFGHJKL:\"~", "|ZXCVBNM<>?", i);
  }

  /** The keys that give the same either way, and those that give nothing. */
  lemma OtherKeys(upper: bool, code: scancode)
    ensures Character(upper, 0x0E) == 8 as char && Character(upper, 0x0F) == '\t' && Character(upper, 0x1C) == '\n'
    ensures Character(upper, 0x37) == '*' && Character(upper, 0x39) == ' '
    ensures code < 0x02 || code == 0x1D || code == 0x2A || code == 0x36 || code == 0x38 || code >= 0x3A ==>
              Character(upper, code) == '\0'
  {
    hide Table;
    RowsOf("1234567890-=", "qwertyuiop[]", "asdfghjkl;'`", "\\zxcvbnm,./", 0);
    RowsOf("!@#$%^&*()_+", "QWERTYUIOP{}", "ASDFGHJKL:\"~", "|ZXCVBNM<>?", 0);
  }

  predicate Capital(c: char, d: char) {
    && ('a' <= c <= 'z' <==> 'A' <= d <= 'Z')
    && ('a' <= c <= 'z' ==> d as int == c as int - 'a' as int + 'A' as int)
  }

  /** Shift gives the capital of a letter, and a letter's only. */
  lemma Capitals(code: scancode)
    ensures Capital(Character(false, code), Character(true, code))
  {
    hide Character, Capital;
    if 0x02 <= code < 0x0E {
      CapitalDigit(code - 0x02);
    } else if 0x10 <= code < 0x1C {
      CapitalTop(code - 0x10);
    } else if 0x1E <= code < 0x2A {
      CapitalHome(code - 0x1E);
    } else if 0x2B <= code < 0x36 {
      CapitalBottom(code - 0x2B);
    } else {
      OtherKeys(false, code);
      OtherKeys(true, code);
      NoCapital(Character(false, code));
    }
  }

  lemma NoCapital(c: char)
    requires !('a' <= c <= 'z') && !('A' <= c <= 'Z')
    ensures Capital(c, c)
  {
  }

  lemma CapitalDigit(i: nat)
    requires i < 12
    ensures Capital(Character(false, 0x02 + i), Character(true, 0x02 + i))
  {
    hide Character;
    Rows(i);
  }

  lemma CapitalTop(i: nat)
    requires i < 12
    ensures Capital(Character(false, 0x10 + i), Character(true, 0x10 + i))
  {
    hide Character;
    Rows(i);
  }

  lemma CapitalHome(i: nat)
    requires i < 12
    ensures Capital(Character(false, 0x1E + i), Character(true, 0x1E + i))
  {
    hide Character;
    Rows(i);
  }

  lemma CapitalBottom(i: nat)
    requires i < 11
    ensures Capital(Character(false, 0x2B + i), Character(true, 0x2B + i))
  {
    hide Character;
    Rows(i);
  }

  /** Shift is released by the code of its press with bit 7 set, as any key is. */
  lemma Modifiers(code: scancode)
    ensures ShiftPress(code) <==> code == 0x2A || code == 0x36
    ensures ShiftRelease(code) <==> code >= 0x80 && ShiftPress(code - 0x80)
    ensures CapsLock(code) <==> code == 0x3A
  {
  }

  // ------------------------------------------------------------------ undisturbed

  /** The characters from slot `r` up to but not including slot `w`, around the end if need be. */
  function Between(buffer: seq<char>, r: Index, w: Index): seq<char>
    requires |buffer| == 128
  {
    if r <= w then buffer[r..w] else buffer[r..] + buffer[..w]
  }

  lemma Taken(buffer: seq<char>, r: Index, w: Index)
    requires |buffer| == 128 && r != w
    ensures Between(buffer, r, w) == [buffer[r]] + Between(buffer, Next(r), w)
  {
    hide Next;
    NextIs(r);
    if r < w {
      assert buffer[r..w] == [buffer[r]] + buffer[r + 1..w];
    } else if r == 127 {
      assert buffer[r..] == [buffer[r]] && buffer[0..w] == buffer[..w];
    } else {
      AroundTheEnd(buffer, r, w);
    }
  }

  lemma NextIs(i: Index)
    ensures Next(i) == if i == 127 then 0 else i + 1
  {
  }

  lemma AroundTheEnd(buffer: seq<char>, r: nat, w: nat)
    requires w <= r < |buffer|
    ensures buffer[r..] + buffer[..w] == [buffer[r]] + (buffer[r + 1..] + buffer[..w])
  {
  }

  lemma BetweenBound(buffer: seq<char>, r: Index, w: Index)
    requires |buffer| == 128
    ensures |Between(buffer, r, w)| <= 127 && (Between(buffer, r, w) == [] <==> r == w)
  {
  }

  lemma Appended(buffer: seq<char>, r: Index, w: Index, c: char)
    requires |buffer| == 128
    ensures Next(w) == r <==> |Between(buffer, r, w)| == 127
    ensures Next(w) != r ==> Between(buffer[w := c], r, Next(w)) == Between(buffer, r, w) + [c]
  {
  }

  class KeyboardDriver {
    var shiftPressed: bool
    var capsLock: bool
    const kbBuffer: array<char>
    var kbBufferRead: nat
    var kbBufferWrite: nat

    ghost predicate Valid()
      reads this, kbBuffer
    {
      && kbBuffer.Length == KB_BUFFER_SIZE && kbBufferRead < KB_BUFFER_SIZE && kbBufferWrite < KB_BUFFER_SIZE
      && '\0' !in Contents()
    }

    /** The characters in the buffer, oldest first. */
    ghost function Contents(): seq<char>
      requires kbBuffer.Length == KB_BUFFER_SIZE && kbBufferRead < KB_BUFFER_SIZE && kbBufferWrite < KB_BUFFER_SIZE
      reads this, kbBuffer
    {
      Between(kbBuffer[..], kbBufferRead, kbBufferWrite)
    }

    constructor ()
      ensures Valid() && fresh(kbBuffer) && Contents() == [] && !shiftPressed && !capsLock
      ensures Inv(Now())
    {
      kbBuffer := new char[128];
      shiftPressed, capsLock := false, false;
      kbBufferRead, kbBufferWrite := 0, 0;
    }

    /** The shared variables between two calls, for a reader that is outside. */
    ghost function Now(): Ring
      requires Valid()
      reads this, kbBuffer
    {
      Ring(kbBuffer[..], kbBufferRead, kbBufferWrite, Outside, [], [], 0)
    }

    /** A full buffer, 127 characters, drops the new one. */
    method Put(c: char)
      requires Valid() && c != '\0'
      modifies this`kbBufferWrite, kbBuffer
      ensures Valid()
      ensures Now() == Interrupt(old(Now()), c).(accepted := [], dropped := 0)
      ensures Contents() == if |old(Contents())| < 127 then old(Contents()) + [c] else old(Contents())
    {
      hide Between;
      Appended(kbBuffer[..], kbBufferRead, kbBufferWrite, c);
      BetweenBound(kbBuffer[..], kbBufferRead, kbBufferWrite);
      ghost var stored := kbBuffer[..][kbBufferWrite := c];
      var next := (kbBufferWrite + 1) % KB_BUFFER_SIZE;
      if next != kbBufferRead {
        kbBuffer[kbBufferWrite] := c;
        kbBufferWrite := next;
        assert kbBuffer[..] == stored;
      }
    }

    /** The oldest character, '\0' exactly when there is none. */
    method GetChar() returns (c: char)
      requires Valid()
      modifies this`kbBufferRead
      ensures Valid()
      ensures old(Contents()) == [] ==> Now() == ReaderStep(ReaderStep(old(Now())))
      ensures old(Contents()) != [] ==>
        var r := ReaderStep(ReaderStep(ReaderStep(ReaderStep(ReaderStep(old(Now()))))));
        r.delivered == [c] && Now() == r.(delivered := [])
      ensures c == '\0' <==> old(Contents()) == []
      ensures old(Contents()) == [] ==> Contents() == []
      ensures old(Contents()) != [] ==> old(Contents()) == [c] + Contents()
    {
      hide ReaderStep, Between;
      ReadSteps(Now());
      BetweenBound(kbBuffer[..], kbBufferRead, kbBufferWrite);
      if kbBufferRead == kbBufferWrite { return '\0'; }
      Taken(kbBuffer[..], kbBufferRead, kbBufferWrite);
      c := kbBuffer[kbBufferRead];
      assert c == Contents()[0];
      kbBufferRead := (kbBufferRead + 1) % KB_BUFFER_SIZE;
    }

    method HasChar() returns (r: bool)
      requires Valid()
      ensures r <==> Contents() != []
    {
      r := kbBufferRead != kbBufferWrite;
    }

    /** The interrupt handler; the character, if any, also goes to the terminal. */
    method HandleIrq(code: scancode) returns (echoed: seq<char>)
      requires Valid()
      modifies this, kbBuffer
      ensures Valid()
      ensures shiftPressed == if ShiftPress(code) then true else if ShiftRelease(code) then false else old(shiftPressed)
      ensures capsLock == (old(capsLock) != CapsLock(code))
      ensures var c := Character(old(shiftPressed) != old(capsLock), code);
        && echoed == (if c == '\0' then [] else [c])
        && Contents() == if |old(Contents())| < 127 then old(Contents()) + echoed else old(Contents())
    {
      echoed := [];
      if code == 0x2A || code == 0x36 {
        shiftPressed := true;
        return;
      }
      if code == 0xAA || code == 0xB6 {
        shiftPressed := false;
        return;
      }
      if code == 0x3A {
        capsLock := !capsLock;
        return;
      }
      if code < 0x80 {
        var c := '\0';
        if code < |LOWER| {
          var uppercase := shiftPressed != capsLock;
          if uppercase { c := UPPER[code]; } else { c := LOWER[code]; }
        }
        if c != '\0' {
          Put(c);
          echoed := [c];
        }
      }
    }
  }
}
