/**
  The keyboard ring: an interrupt handler that may run between any two steps of the reader, and no
  character lost, doubled or out of order.
 */
module Keyboard {
  // ---- the ring ----

  datatype Ring = Ring(buffer: seq<int>, head: nat, tail: nat)

  predicate Proper(r: Ring) {
    |r.buffer| == 256 && r.head < 256 && r.tail < 256
  }

  function Pending(r: Ring): (n: nat)
    ensures n < 256
  {
    (r.head - r.tail) % 256
  }

  /** The characters waiting, the oldest first. */
  ghost function Contents(r: Ring): (s: seq<int>)
    requires Proper(r)
    ensures |s| == Pending(r)
  {
    seq(Pending(r), i requires 0 <= i < Pending(r) => r.buffer[Cell(r, i)])
  }

  /** Where the i-th waiting character stands. */
  function Cell(r: Ring, i: nat): (k: nat)
    ensures k < 256
  {
    (r.tail + i) % 256
  }

  function Push(r: Ring, c: int): Ring
    requires Proper(r)
  {
    var next := (r.head + 1) % 256;
    if next == r.tail then r else Ring(r.buffer[r.head := c], next, r.tail)
  }

  function Pop(r: Ring): Ring {
    r.(tail := (r.tail + 1) % 256)
  }

  /** A push is refused exactly when 255 characters are pending; otherwise it goes to the end. */
  lemma PushAdds(r: Ring, c: int)
    requires Proper(r)
    ensures Proper(Push(r, c)) && (Push(r, c) == r <==> Pending(r) == 255)
    ensures Contents(Push(r, c)) == if Pending(r) == 255 then Contents(r) else Contents(r) + [c]
  {
    var r', n := Push(r, c), Pending(r);
    FullWhen(r);
    if n < 255 {
      assert Pending(r') == n + 1;
      forall i | 0 <= i < n
        ensures Cell(r, i) != r.head
      {
        NotThere(r, i);
      }
      assert Cell(r, n) == r.head;
      assert Contents(r') == Contents(r) + [c];
    }
  }

  lemma FullWhen(r: Ring)
    requires Proper(r)
    ensures (r.head + 1) % 256 == r.tail <==> Pending(r) == 255
    ensures Pending(r) < 255 ==> ((r.head + 1) % 256 - r.tail) % 256 == Pending(r) + 1
    ensures (r.tail + Pending(r)) % 256 == r.head
  {
    if r.head >= r.tail {
      assert Pending(r) == r.head - r.tail;
    } else {
      assert Pending(r) == r.head - r.tail + 256;
    }
  }

  lemma NotThere(r: Ring, i: nat)
    requires Proper(r) && i < Pending(r)
    ensures Cell(r, i) != r.head
  {
  }

  lemma PoppedCells(r: Ring)
    requires Proper(r) && r.head != r.tail
    ensures Pending(r) > 0 && Pending(Pop(r)) == Pending(r) - 1 && Cell(r, 0) == r.tail
    ensures forall i: nat :: Cell(Pop(r), i) == Cell(r, i + 1)
  {
  }

  lemma PopTakes(r: Ring)
    requires Proper(r) && r.head != r.tail
    ensures Proper(Pop(r)) && Pending(r) > 0 && Contents(r)[0] == r.buffer[r.tail]
    ensures Contents(Pop(r)) == Contents(r)[1..]
  {
    PoppedCells(r);
  }

  lemma PopSplits(r: Ring)
    requires Proper(r) && r.head != r.tail
    ensures Proper(Pop(r)) && Contents(r) == [r.buffer[r.tail]] + Contents(Pop(r))
  {
    PopTakes(r);
    assert Contents(r) == [Contents(r)[0]] + Contents(r)[1..];
  }

  // ---- what a scancode means ----

  datatype Keys = Keys(shift: bool, extended: bool)

  const EXTENDED := 0xE0
  // The characters of the codes 0 to 58, without shift and with it, row by row of the keyboard.
  const PLAIN := PLAIN_1 + PLAIN_2 + PLAIN_3 + PLAIN_4 + LAST
  const PLAIN_1 := [0, 27, 49, 50, 51, 52, 53, 54, 55, 56, 57, 48, 45, 61, 8]
  const PLAIN_2 := [9, 113, 119, 101, 114, 116, 121, 117, 105, 111, 112, 91, 93, 10]
  const PLAIN_3 := [0, 97, 115, 100, 102, 103, 104, 106, 107, 108, 59, 39, 96]
  const PLAIN_4 := [0, 92, 122, 120, 99, 118, 98, 110, 109, 44, 46, 47]
  const SHIFTED := SHIFTED_1 + SHIFTED_2 + SHIFTED_3 + SHIFTED_4 + LAST
  const SHIFTED_1 := [0, 27, 33, 64, 35, 36, 37, 94, 38, 42, 40, 41, 95, 43, 8]
  const SHIFTED_2 := [9, 81, 87, 69, 82, 84, 89, 85, 73, 79, 80, 123, 125, 10]
  const SHIFTED_3 := [0, 65, 83, 68, 70, 71, 72, 74, 75, 76, 58, 34, 126]
  const SHIFTED_4 := [0, 124, 90, 88, 67, 86, 66, 78, 77, 60, 62, 63]
  const LAST := [0, 42, 0, 32, 0]

  function Ascii(shift: bool, code: nat): int {
    var table := if shift then SHIFTED else PLAIN;
    if code < |table| then table[code] else 0
  }

  function Arrow(code: nat): int {
    if code == 0x48 then 0x11 else if code == 0x50 then 0x12
    else if code == 0x4B then 0x13 else if code == 0x4D then 0x14 else 0
  }

  /** The keys held after a scancode, and the character it stands for, or 0. */
  function Decode(k: Keys, code: nat): (Keys, int)
    requires code < 256
  {
    if code == EXTENDED then (k.(extended := true), 0)
    else if code >= 128 then
      var released := code - 128;
      (Keys(k.shift && !(!k.extended && (released == 0x2A || released == 0x36)), false), 0)
    else if k.extended then (k.(extended := false), Arrow(code))
    else if code == 0x2A || code == 0x36 then (Keys(true, false), 0)
    else (Keys(k.shift, false), Ascii(k.shift, code))
  }

  /** The keys held after a sequence of scancodes. */
  function KeysAfter(codes: seq<nat>): Keys
    requires Codes(codes)
  {
    if codes == [] then Keys(false, false)
    else
      var n := |codes| - 1;
      Decode(KeysAfter(codes[..n]), codes[n]).0
  }

  predicate Codes(codes: seq<nat>) {
    forall i :: 0 <= i < |codes| ==> codes[i] < 256
  }

  /** The i-th code comes right after the prefix of the extended ones. */
  predicate Prefixed(codes: seq<nat>, i: int)
    requires 0 <= i <= |codes|
  {
    i > 0 && codes[i - 1] == EXTENDED
  }

  /** The i-th code is that of a shift key going down or up. */
  predicate ShiftCode(codes: seq<nat>, i: int) {
    0 <= i < |codes| && !Prefixed(codes, i) && codes[i] in {0x2A, 0x36, 0xAA, 0xB6}
  }

  /** The last shift code there was is that of a key going down. */
  ghost predicate ShiftDown(codes: seq<nat>) {
    exists i :: LastShift(codes, i) && codes[i] < 128
  }

  ghost predicate LastShift(codes: seq<nat>, i: int) {
    ShiftCode(codes, i) && forall j :: i < j < |codes| ==> !ShiftCode(codes, j)
  }

  /** What the last code of a sequence types, told by the codes alone. */
  ghost function Typed(codes: seq<nat>): int {
    var n := |codes| - 1;
    if n < 0 || codes[n] >= 128 then 0
    else if Prefixed(codes, n) then Arrow(codes[n])
    else if ShiftCode(codes, n) then 0
    else Ascii(ShiftDown(codes[..n]), codes[n])
  }

  /** The flags say what the codes so far say, and a code types what it means after them. */
  lemma {:induction false} DecodeMeans(codes: seq<nat>)
    requires Codes(codes)
    ensures KeysAfter(codes) == Keys(ShiftDown(codes), Prefixed(codes, |codes|))
    ensures codes != [] ==> var n := |codes| - 1; Decode(KeysAfter(codes[..n]), codes[n]).1 == Typed(codes)
  {
    if codes != [] {
      var n := |codes| - 1;
      DecodeMeans(codes[..n]);
      ShiftStep(codes[..n], codes[n], codes);
      assert Prefixed(codes[..n], n) == Prefixed(codes, n);
    }
  }

  // ---- the keys by what is printed on them ----

  /** In which row a code is looked up, and where. */
  lemma RowOf(shift: bool, code: nat)
    ensures code < 15 ==> Ascii(shift, code) == if shift then SHIFTED_1[code] else PLAIN_1[code]
    ensures 15 <= code < 29 ==> Ascii(shift, code) == if shift then SHIFTED_2[code - 15] else PLAIN_2[code - 15]
    ensures 29 <= code < 42 ==> Ascii(shift, code) == if shift then SHIFTED_3[code - 29] else PLAIN_3[code - 29]
    ensures 42 <= code < 54 ==> Ascii(shift, code) == if shift then SHIFTED_4[code - 42] else PLAIN_4[code - 42]
  {
  }

  lemma DigitRow(i: nat)
    requires i < 12
    ensures Ascii(false, 2 + i) == "1234567890-="[i] as int && Ascii(true, 2 + i) == "!@#$%^&*()_+"[i] as int
  {
    RowOf(false, 2 + i);
    RowOf(true, 2 + i);
    assert i in [0, 1, 2, 3, 4, 5, 6, 7, 8, 9, 10, 11];
  }

  lemma UpperRow(i: nat)
    requires i < 12
    ensures Ascii(false, 16 + i) == "qwertyuiop[]"[i] as int && Ascii(true, 16 + i) == "QWERTYUIOP{}"[i] as int
  {
    RowOf(false, 16 + i);
    RowOf(true, 16 + i);
    assert i in [0, 1, 2, 3, 4, 5, 6, 7, 8, 9, 10, 11];
  }

  lemma HomeRow(i: nat)
    requires i < 12
    ensures Ascii(false, 30 + i) == "asdfghjkl;'`"[i] as int && Ascii(true, 30 + i) == "ASDFGHJKL:\"~"[i] as int
  {
    RowOf(false, 30 + i);
    RowOf(true, 30 + i);
    assert i in [0, 1, 2, 3, 4, 5, 6, 7, 8, 9, 10, 11];
  }

  lemma LowerRow(i: nat)
    requires i < 11
    ensures Ascii(false, 43 + i) == "\\zxcvbnm,./"[i] as int && Ascii(true, 43 + i) == "|ZXCVBNM<>?"[i] as int
  {
    RowOf(false, 43 + i);
    RowOf(true, 43 + i);
    assert i in [0, 1, 2, 3, 4, 5, 6, 7, 8, 9, 10];
  }

  /** Escape, backspace, tab, enter, the keypad's star and the space bar type the same with and without shift. */
  lemma OtherKeys(shift: bool)
    ensures Ascii(shift, 1) == 27 && Ascii(shift, 14) == 8 && Ascii(shift, 15) == 9 && Ascii(shift, 28) == 10
    ensures Ascii(shift, 55) == '*' as int && Ascii(shift, 57) == ' ' as int
    ensures forall code: nat :: code in [0, 29, 42, 54, 56, 58] || code >= 59 ==> Ascii(shift, code) == 0
  {
  }

  /** A key of the four rows types the character printed on it, the upper one exactly when a shift key is down. */
  lemma KeyTypes(codes: seq<nat>, row: nat, i: nat)
    requires row < 4 && i < (if row == 3 then 11 else 12) && codes != [] && !Prefixed(codes, |codes| - 1)
    requires codes[|codes| - 1] == [2, 16, 30, 43][row] + i
    ensures var plain := ["1234567890-=", "qwertyuiop[]", "asdfghjkl;'`", "\\zxcvbnm,./"][row];
            var upper := ["!@#$%^&*()_+", "QWERTYUIOP{}", "ASDFGHJKL:\"~", "|ZXCVBNM<>?"][row];
            Typed(codes) == if ShiftDown(codes[..|codes| - 1]) then upper[i] as int else plain[i] as int
  {
    if row == 0 {
      DigitRow(i);
    } else if row == 1 {
      UpperRow(i);
    } else if row == 2 {
      HomeRow(i);
    } else {
      LowerRow(i);
    }
  }

  /** After the prefix the arrows type 0x11 to 0x14, whatever shift does, and no other key types anything. */
  lemma ArrowTypes(codes: seq<nat>)
    requires codes != [] && Prefixed(codes, |codes| - 1)
    ensures var c := codes[|codes| - 1];
            Typed(codes) == if c == 0x48 then 0x11 else if c == 0x50 then 0x12
                            else if c == 0x4B then 0x13 else if c == 0x4D then 0x14 else 0
  {
  }

  lemma ShiftStep(front: seq<nat>, code: nat, codes: seq<nat>)
    requires codes == front + [code]
    ensures ShiftCode(codes, |front|) ==> (ShiftDown(codes) <==> code < 128)
    ensures !ShiftCode(codes, |front|) ==> (ShiftDown(codes) <==> ShiftDown(front))
  {
    forall i | 0 <= i < |front|
      ensures ShiftCode(codes, i) <==> ShiftCode(front, i)
    {
      assert codes[i] == front[i] && (i > 0 ==> codes[i - 1] == front[i - 1]);
    }
    if ShiftCode(codes, |front|) {
      assert forall i :: LastShift(codes, i) <==> i == |front|;
    } else {
      assert forall i :: LastShift(codes, i) <==> LastShift(front, i);
    }
  }

  // ---- the handler and the reader, step by step ----

  /** Where the reader is: before its test, after it, or with the character in hand but still in the ring. */
  datatype Reader = Idle | Tested | Loaded(c: int)

  datatype State = State(ring: Ring, keys: Keys, reader: Reader, accepted: seq<int>, delivered: seq<int>)

  datatype Event = Interrupt(code: nat) | Go

  function Type(s: State, c: int): State
    requires Proper(s.ring)
  {
    var ring := Push(s.ring, c);
    s.(ring := ring, accepted := if ring == s.ring then s.accepted else s.accepted + [c])
  }

  function Handle(s: State, code: nat): State
    requires Proper(s.ring) && code < 256
  {
    var (keys, c) := Decode(s.keys, code);
    if c == 0 then s.(keys := keys) else Type(s.(keys := keys), c)
  }

  /** The reader's next step; finding the ring empty, it starts again. */
  function Advance(s: State): State
    requires Proper(s.ring)
  {
    match s.reader
    case Idle => if s.ring.head != s.ring.tail then s.(reader := Tested) else s
    case Tested => s.(reader := Loaded(s.ring.buffer[s.ring.tail]))
    case Loaded(c) => s.(ring := Pop(s.ring), reader := Idle, delivered := s.delivered + [c])
  }

  predicate Allowed(e: Event) {
    e.Interrupt? ==> e.code < 256
  }

  function Step(s: State, e: Event): State
    requires Proper(s.ring) && Allowed(e)
  {
    match e case Interrupt(code) => Handle(s, code) case Go => Advance(s)
  }

  /** Delivered, then buffered, is what was accepted; a character in hand is still the oldest in the ring. */
  ghost predicate Sound(s: State) {
    && Proper(s.ring)
    && s.accepted == s.delivered + Contents(s.ring)
    && (s.reader != Idle ==> s.ring.head != s.ring.tail)
    && (s.reader.Loaded? ==> s.reader.c == s.ring.buffer[s.ring.tail])
  }

  lemma TypeKeeps(s: State, c: int)
    requires Sound(s)
    ensures Sound(Type(s, c))
    ensures Type(s, c).accepted == if Pending(s.ring) == 255 then s.accepted else s.accepted + [c]
  {
    PushAdds(s.ring, c);
    if Pending(s.ring) < 255 {
      assert s.accepted + [c] == s.delivered + (Contents(s.ring) + [c]);
      FullWhen(s.ring);
    }
  }

  lemma AdvanceKeeps(s: State)
    requires Sound(s)
    ensures Sound(Advance(s))
  {
    if s.reader.Loaded? {
      PopSplits(s.ring);
      var c := s.ring.buffer[s.ring.tail];
      assert s.delivered + ([c] + Contents(Pop(s.ring))) == (s.delivered + [c]) + Contents(Pop(s.ring));
    }
  }

  lemma StepKeeps(s: State, e: Event)
    requires Sound(s) && Allowed(e)
    ensures Sound(Step(s, e))
  {
    match e
    case Interrupt(code) =>
      var (keys, c) := Decode(s.keys, code);
      TypeKeeps(s.(keys := keys), c);
    case Go =>
      AdvanceKeeps(s);
  }

  ghost function After(s: State, es: seq<Event>): (r: State)
    requires Sound(s) && forall i :: 0 <= i < |es| ==> Allowed(es[i])
    ensures Sound(r)
    decreases |es|
  {
    if es == [] then s
    else
      StepKeeps(s, es[0]);
      After(Step(s, es[0]), es[1..])
  }

  function Start(buffer: seq<int>): State {
    State(Ring(buffer, 0, 0), Keys(false, false), Idle, [], [])
  }

  /** In every interleaving from the start, what was delivered is the front of what was accepted, in order. */
  lemma NothingLost(buffer: seq<int>, es: seq<Event>)
    requires |buffer| == 256 && forall i :: 0 <= i < |es| ==> Allowed(es[i])
    ensures Sound(Start(buffer))
    ensures var s := After(Start(buffer), es);
            && s.delivered <= s.accepted && s.accepted[|s.delivered|..] == Contents(s.ring)
            && |s.accepted| - |s.delivered| <= 255
  {
    assert Contents(Start(buffer).ring) == [];
    var s := After(Start(buffer), es);
    assert s.accepted[|s.delivered|..] == Contents(s.ring);
  }

  /** All that a sequence of codes types. */
  ghost function TypedAll(codes: seq<nat>): seq<int> {
    if codes == [] then []
    else TypedAll(codes[..|codes| - 1]) + (if Typed(codes) == 0 then [] else [Typed(codes)])
  }

  /** The codes that come in. */
  function CodesOf(es: seq<Event>): seq<nat> {
    if es == [] then [] else (if es[0].Interrupt? then [es[0].code] else []) + CodesOf(es[1..])
  }

  /** There is room in the ring whenever a code comes in. */
  ghost predicate NeverFull(s: State, es: seq<Event>)
    requires Sound(s) && forall i :: 0 <= i < |es| ==> Allowed(es[i])
    decreases |es|
  {
    || es == []
    || ((es[0].Interrupt? ==> Pending(s.ring) < 255) && (StepKeeps(s, es[0]); NeverFull(Step(s, es[0]), es[1..])))
  }

  /** One code: the keys held and the characters accepted are again those of all the codes. */
  lemma CodeAccepted(s: State, codes: seq<nat>, code: nat)
    requires Sound(s) && Codes(codes) && code < 256 && s.keys == KeysAfter(codes) && Pending(s.ring) < 255
    requires s.accepted == TypedAll(codes)
    ensures Codes(codes + [code])
    ensures var s' := Step(s, Interrupt(code));
            s'.keys == KeysAfter(codes + [code]) && s'.accepted == TypedAll(codes + [code])
  {
    var all := codes + [code];
    assert all[..|codes|] == codes;
    DecodeMeans(all);
    TypeKeeps(s.(keys := KeysAfter(all)), Typed(all));
  }

  lemma CodesJoin(codes: seq<nat>, es: seq<Event>)
    requires es != []
    ensures codes + CodesOf(es) == (if es[0].Interrupt? then codes + [es[0].code] else codes) + CodesOf(es[1..])
  {
  }

  /** The invariant of a run: the keys held and the characters accepted are those of the codes so far. */
  ghost predicate Faithful(s: State, codes: seq<nat>) {
    Sound(s) && Codes(codes) && s.keys == KeysAfter(codes) && s.accepted == TypedAll(codes)
  }

  lemma FaithfulStep(s: State, e: Event, codes: seq<nat>)
    requires Faithful(s, codes) && Allowed(e) && (e.Interrupt? ==> Pending(s.ring) < 255)
    ensures Faithful(Step(s, e), if e.Interrupt? then codes + [e.code] else codes)
  {
    StepKeeps(s, e);
    if e.Interrupt? {
      CodeAccepted(s, codes, e.code);
    }
  }

  lemma {:induction false} FaithfulRun(s: State, es: seq<Event>, codes: seq<nat>)
    requires Faithful(s, codes) && (forall i :: 0 <= i < |es| ==> Allowed(es[i])) && NeverFull(s, es)
    ensures Faithful(After(s, es), codes + CodesOf(es))
    decreases |es|
  {
    if es == [] {
      assert codes + CodesOf(es) == codes;
    } else {
      FaithfulStep(s, es[0], codes);
      CodesJoin(codes, es);
      FaithfulRun(Step(s, es[0]), es[1..], if es[0].Interrupt? then codes + [es[0].code] else codes);
    }
  }

  /** In every interleaving in which the ring is never full, what is accepted is exactly what was typed. */
  lemma TypedIsAccepted(buffer: seq<int>, es: seq<Event>)
    requires |buffer| == 256 && forall i :: 0 <= i < |es| ==> Allowed(es[i])
    ensures Sound(Start(buffer))
    ensures NeverFull(Start(buffer), es) ==> After(Start(buffer), es).accepted == TypedAll(CodesOf(es))
  {
    NothingLost(buffer, es);
    if NeverFull(Start(buffer), es) {
      FaithfulRun(Start(buffer), es, []);
      assert [] + CodesOf(es) == CodesOf(es);
    }
  }

  // ---- the driver itself ----

  class Driver {
    const buffer: array<int>
    var head: nat
    var tail: nat
    var shift: bool
    var extended: bool
    ghost var codes: seq<nat>   // every scancode so far

    ghost function Held(): Ring
      reads this, buffer
    {
      Ring(buffer[..], head, tail)
    }

    ghost predicate Valid()
      reads this, buffer
    {
      buffer.Length == 256 && Proper(Held()) && Codes(codes) && Keys(shift, extended) == KeysAfter(codes)
    }

    constructor ()
      ensures Valid() && fresh(buffer) && Contents(Held()) == [] && codes == []
    {
      buffer := new int[256];
      head, tail, shift, extended, codes := 0, 0, false, false, [];
    }

    method BufferPush(c: int)
      requires buffer.Length == 256 && Proper(Held())
      modifies this`head, buffer
      ensures Proper(Held()) && Held() == Push(old(Held()), c)
    {
      var next := (head + 1) % 256;
      if next == tail {
        return;
      }
      buffer[head] := c;
      head := next;
    }

    /**
      The interrupt handler: whatever codes came before, the flags afterwards tell whether a shift key is down
      and whether the prefix was last, and what the code means is pushed.
     */
    method Irq(code: nat)
      requires Valid() && code < 256
      modifies this`head, this`shift, this`extended, this`codes, buffer
      ensures Valid() && codes == old(codes) + [code]
      ensures (shift <==> ShiftDown(codes)) && (extended <==> code == EXTENDED)
      ensures Held() == if Typed(codes) == 0 then old(Held()) else Push(old(Held()), Typed(codes))
    {
      ghost var before := codes;
      codes := codes + [code];
      assert codes[..|before|] == before;
      DecodeMeans(codes);
      if code == 0xE0 {
        extended := true;
        return;
      }
      var wasExtended := extended;
      extended := false;
      if code >= 0x80 {
        var released := code - 0x80;
        if !wasExtended && (released == 0x2A || released == 0x36) {
          shift := false;
        }
        return;
      }
      if wasExtended {
        var c := Arrow(code);
        if c != 0 {
          BufferPush(c);
        }
        return;
      }
      if code == 0x2A || code == 0x36 {
        shift := true;
        return;
      }
      var c := Ascii(shift, code);
      if c != 0 {
        BufferPush(c);
      }
    }

    /** The ring's part of keyboard_trygetchar, undisturbed. */
    method TryGetChar() returns (ok: bool, c: int)
      requires Valid()
      modifies this`tail
      ensures Valid() && (ok <==> old(Contents(Held())) != [])
      ensures ok ==> old(Contents(Held())) == [c] + Contents(Held())
      ensures !ok ==> Held() == old(Held())
    {
      if head == tail {
        return false, 0;
      }
      PopSplits(Held());
      c := buffer[tail];
      tail := (tail + 1) % 256;
      return true, c;
    }
  }
}
