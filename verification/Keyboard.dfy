/** The keyboard ring (src/keyboard.c): the interrupt handler puts keys in, and
    keyboard_get takes them out, statement by statement, with interrupts (src/idt.c:77-79)
    between any two of its statements. */
module Keyboard {
  import opened Arithmetic

  const SIZE: nat := 128

  // ----- scan codes

  const KEYMAP: string :=
    "\0\U{1B}1234567890-=\U{08}" + "\tqwertyuiop[]\n" + "\0asdfghjkl;'`" + "\0\\zxcvbnm,./\0" + "*\0 "
  const KEYMAP_SHIFT: string :=
    "\0\U{1B}!@#$%^&*()_+\U{08}" + "\tQWERTYUIOP{}\n" + "\0ASDFGHJKL:\"~" + "\0|ZXCVBNM<>?\0" + "*\0 "

  const KB_CTRL_D := 0x108
  const KB_CTRL_C := 0x109

  /** The cursor keys, or 0. */
  function CursorKey(code: nat): int {
    if code == 0x48 then 0x100
    else if code == 0x50 then 0x101
    else if code == 0x4B then 0x102
    else if code == 0x4D then 0x103
    else if code == 0x47 then 0x104
    else if code == 0x4F then 0x105
    else if code == 0x49 then 0x106
    else if code == 0x51 then 0x107
    else 0
  }

  function Mapped(code: nat, shift: bool): int {
    var table := if shift then KEYMAP_SHIFT else KEYMAP;
    if code < |table| then table[code] as int else 0
  }

  /** The key a scan code stands for under the modifiers, or 0 when it stands for none:
      modifiers, releases and unmapped codes. */
  function KeyOf(scan: nat, shift: bool, ctrl: bool): int {
    var code := scan % 128;
    if code == 0x2A || code == 0x36 || code == 0x1D || scan >= 128 then 0
    else if ctrl && code == 0x20 then KB_CTRL_D
    else if ctrl && code == 0x2E then KB_CTRL_C
    else if CursorKey(code) != 0 then CursorKey(code)
    else Mapped(code, shift)
  }

  // ----- the ring as a value

  /** Where keyboard_get stands: before "sti", at the test of the loop, in "hlt", at the
      read of the slot, at the store of the new tail, at the return. */
  datatype Pc = Idle | Test | Halt | Read | Store | Return

  datatype State = State(buf: seq<int>, head: nat, tail: nat, shift: bool, ctrl: bool, pc: Pc, c: int)
  {
    predicate Ok() {
      |buf| == 128 && head < 128 && tail < 128
    }

    function Count(): nat
      requires Ok()
    {
      if tail <= head then head - tail else head + 128 - tail
    }

    /** The keys waiting, oldest first. */
    function Pending(): seq<int>
      requires Ok()
    {
      if tail <= head then buf[tail..head] else buf[tail..] + buf[..head]
    }

    /** The key taken from the ring and not yet returned. */
    function InFlight(): seq<int> {
      if pc == Return then [c] else []
    }
  }

  const START := State(seq(128, _ => 0), 0, 0, false, false, Idle, 0)

  function Next(i: nat): nat {
    if i + 1 == 128 then 0 else i + 1
  }

  /** buf_push: one slot always stays free. */
  function Push(s: State, key: int): State
    requires s.Ok()
  {
    if Next(s.head) == s.tail then s else s.(buf := s.buf[s.head := key], head := Next(s.head))
  }

  function Irq(s: State, scan: nat): State
    requires s.Ok()
  {
    var code, released := scan % 128, scan >= 128;
    if code == 0x2A || code == 0x36 then s.(shift := !released)
    else if code == 0x1D then s.(ctrl := !released)
    else if KeyOf(scan, s.shift, s.ctrl) == 0 then s
    else Push(s, KeyOf(scan, s.shift, s.ctrl))
  }

  /** One statement of keyboard_get. */
  function Consume(s: State): State
    requires s.Ok()
  {
    match s.pc
    case Idle => s.(pc := Test)
    case Test => s.(pc := if s.head == s.tail then Halt else Read)
    case Halt => s.(pc := Test)
    case Read => s.(c := s.buf[s.tail], pc := Store)
    case Store => s.(tail := Next(s.tail), pc := Return)
    case Return => s.(pc := Idle)
  }

  datatype Event = Interrupt(scan: nat) | Statement

  function Step(s: State, e: Event): State
    requires s.Ok()
  {
    match e
    case Interrupt(scan) => Irq(s, scan)
    case Statement => Consume(s)
  }

  lemma StepKeepsOk(s: State, e: Event)
    requires s.Ok()
    ensures Step(s, e).Ok()
  {
  }

  function Run(s: State, events: seq<Event>): (t: State)
    requires s.Ok()
    ensures t.Ok()
    decreases |events|
  {
    if events == [] then s
    else
      StepKeepsOk(s, events[0]);
      Run(Step(s, events[0]), events[1..])
  }

  // ----- what a run does with the keys

  /** A key offered to the ring: how many were pending, and whether it went in. */
  datatype Offer = Offer(key: int, pending: nat, accepted: bool)

  function OfferOf(s: State, e: Event): seq<Offer>
    requires s.Ok()
  {
    if e.Interrupt? && KeyOf(e.scan, s.shift, s.ctrl) != 0 then
      [Offer(KeyOf(e.scan, s.shift, s.ctrl), s.Count(), Step(s, e).head != s.head)]
    else []
  }

  function Offers(s: State, events: seq<Event>): seq<Offer>
    requires s.Ok()
    decreases |events|
  {
    if events == [] then []
    else
      StepKeepsOk(s, events[0]);
      OfferOf(s, events[0]) + Offers(Step(s, events[0]), events[1..])
  }

  function Accepted(offers: seq<Offer>): seq<int> {
    if offers == [] then []
    else KeyIfAccepted(offers[0]) + Accepted(offers[1..])
  }

  function KeyIfAccepted(o: Offer): seq<int> {
    if o.accepted then [o.key] else []
  }

  function ReturnOf(s: State, e: Event): seq<int> {
    if e.Statement? && s.pc == Return then [s.c] else []
  }

  /** The keys keyboard_get returns during the run. */
  function Returned(s: State, events: seq<Event>): seq<int>
    requires s.Ok()
    decreases |events|
  {
    if events == [] then []
    else
      StepKeepsOk(s, events[0]);
      ReturnOf(s, events[0]) + Returned(Step(s, events[0]), events[1..])
  }

  /** While a key is being read or removed there is one, and the one read is the oldest. */
  ghost predicate Consistent(s: State) {
    && s.Ok()
    && (s.pc == Read || s.pc == Store ==> s.Pending() != [])
    && (s.pc == Store ==> s.c == s.Pending()[0])
  }

  lemma PushPending(s: State, key: int)
    requires s.Ok()
    ensures |s.Pending()| == s.Count() <= 127
    ensures Push(s, key).Ok()
    ensures Push(s, key).head == s.head <==> s.Count() == 127
    ensures Push(s, key).Pending() == if s.Count() == 127 then s.Pending() else s.Pending() + [key]
  {
    var t := Push(s, key);
    if s.Count() != 127 {
      if s.tail <= s.head && t.head != 0 {
        assert t.buf[s.tail..t.head] == s.buf[s.tail..s.head] + [key];
      } else if s.tail <= s.head {
        assert t.buf[s.tail..] == s.buf[s.tail..s.head] + [key];
        assert s.tail != 0;
      } else {
        assert t.buf[..t.head] == s.buf[..s.head] + [key] && t.buf[s.tail..] == s.buf[s.tail..];
      }
    }
  }

  /** The keys taken in and not yet returned, oldest first. */
  function Owed(s: State): seq<int>
    requires s.Ok()
  {
    s.InFlight() + s.Pending()
  }

  lemma PushConserves(s: State, key: int)
    requires Consistent(s)
    ensures Consistent(Push(s, key))
    ensures Owed(Push(s, key)) == Owed(s) + if s.Count() == 127 then [] else [key]
  {
    PushPending(s, key);
    assert Owed(Push(s, key)) == s.InFlight() + (s.Pending() + if s.Count() == 127 then [] else [key]);
  }

  lemma AcceptedOne(o: Offer)
    ensures Accepted([o]) == KeyIfAccepted(o)
  {
  }

  lemma InterruptConserves(s: State, scan: nat, key: int)
    requires Consistent(s) && key == KeyOf(scan, s.shift, s.ctrl)
    ensures Consistent(Irq(s, scan))
    ensures Owed(Irq(s, scan)) == Owed(s) + Accepted(OfferOf(s, Interrupt(scan)))
    ensures forall o :: o in OfferOf(s, Interrupt(scan)) ==> (o.accepted <==> o.pending != 127)
  {
    if key != 0 {
      PushConserves(s, key);
      PushPending(s, key);
      assert Irq(s, scan) == Push(s, key);
      AcceptedOne(Offer(key, s.Count(), Push(s, key).head != s.head));
    }
  }

  /** The store of the new tail moves the oldest key from the ring to the return. */
  lemma StoreConserves(s: State)
    requires Consistent(s) && s.pc == Store
    ensures Consistent(Consume(s)) && Owed(Consume(s)) == Owed(s)
  {
    TailPending(s);
    var t := Consume(s);
    assert t.Pending() == s.Pending()[1..];
    assert Owed(t) == [s.c] + t.Pending() == s.Pending();
  }

  lemma StatementConserves(s: State)
    requires Consistent(s)
    ensures Consistent(Consume(s))
    ensures Owed(s) == ReturnOf(s, Statement) + Owed(Consume(s))
  {
    if s.pc == Store {
      StoreConserves(s);
    } else {
      assert Consume(s).Pending() == s.Pending();
      if s.pc == Read {
        TailPending(s);
      }
    }
  }

  /** One event of any kind: the keys owed lose what is returned and gain what is
      accepted. */
  lemma StepConserves(s: State, e: Event)
    requires Consistent(s)
    ensures Consistent(Step(s, e))
    ensures Owed(s) + Accepted(OfferOf(s, e)) == ReturnOf(s, e) + Owed(Step(s, e))
    ensures forall o :: o in OfferOf(s, e) ==> (o.accepted <==> o.pending != 127)
  {
    match e {
      case Interrupt(scan) => InterruptConserves(s, scan, KeyOf(scan, s.shift, s.ctrl));
      case Statement => StatementConserves(s);
    }
  }

  lemma TailPending(s: State)
    requires s.Ok() && s.Pending() != []
    ensures s.Pending()[0] == s.buf[s.tail] && s.(tail := Next(s.tail)).Pending() == s.Pending()[1..]
  {
  }

  lemma {:induction false} AcceptedAppend(xs: seq<Offer>, ys: seq<Offer>)
    ensures Accepted(xs + ys) == Accepted(xs) + Accepted(ys)
  {
    if xs == [] {
      assert xs + ys == ys;
    } else {
      var all := xs + ys;
      AcceptedAppend(xs[1..], ys);
      assert all[0] == xs[0] && all[1..] == xs[1..] + ys;
      var first := KeyIfAccepted(xs[0]);
      Associative(first, Accepted(xs[1..]), Accepted(ys));
    }
  }

  lemma {:induction false} RunConserves(s: State, events: seq<Event>)
    requires Consistent(s)
    ensures Owed(s) + Accepted(Offers(s, events)) == Returned(s, events) + Owed(Run(s, events))
    decreases |events|
  {
    if events != [] {
      var e, t, rest := events[0], Step(s, events[0]), events[1..];
      StepConserves(s, e);
      RunConserves(t, rest);
      AcceptedAppend(OfferOf(s, e), Offers(t, rest));
      Exchange(Owed(s), Accepted(OfferOf(s, e)), Accepted(Offers(t, rest)),
               ReturnOf(s, e), Owed(t), Returned(t, rest), Owed(Run(t, rest)));
    }
  }

  lemma {:induction false} DroppedWhenFull(s: State, events: seq<Event>, o: Offer)
    requires Consistent(s) && o in Offers(s, events)
    ensures o.accepted <==> o.pending != 127
    decreases |events|
  {
    if events != [] {
      StepConserves(s, events[0]);
      if o !in OfferOf(s, events[0]) {
        DroppedWhenFull(Step(s, events[0]), events[1..], o);
      }
    }
  }

  /** Two exchanges in a row make one. */
  lemma Exchange(a: seq<int>, b: seq<int>, c: seq<int>, x: seq<int>, y: seq<int>, z: seq<int>, w: seq<int>)
    requires a + b == x + y && y + c == z + w
    ensures a + (b + c) == (x + z) + w
  {
    Associative(a, b, c);
    Associative(x, y, c);
    Associative(x, z, w);
  }

  /** For every interleaving: the keys returned are a prefix of the keys accepted, in
      order, without loss or repetition; what is missing is exactly the key on its way
      and the keys still pending; and a key is dropped exactly when 127 are pending. */
  lemma NoKeyLost(events: seq<Event>)
    ensures
      var end := Run(START, events);
      var accepted := Accepted(Offers(START, events));
      && Returned(START, events) <= accepted
      && accepted == Returned(START, events) + (end.InFlight() + end.Pending())
    ensures forall o :: o in Offers(START, events) ==> (o.accepted <==> o.pending != 127)
  {
    var accepted := Accepted(Offers(START, events));
    RunConserves(START, events);
    assert Owed(START) == [];
    assert Owed(START) + accepted == accepted;
    forall o | o in Offers(START, events)
      ensures o.accepted <==> o.pending != 127
    {
      DroppedWhenFull(START, events, o);
    }
  }

  // ----- what is typed

  /** One of these scan codes was the last of them and of their releases, 128 above. */
  ghost predicate Held(events: seq<Event>, codes: set<nat>) {
    exists i :: 0 <= i < |events| && IsScan(events[i], codes) && NoRelease(events, i, codes)
  }

  predicate IsScan(e: Event, codes: set<nat>) {
    e.Interrupt? && e.scan in codes
  }

  ghost predicate NoRelease(events: seq<Event>, i: nat, codes: set<nat>) {
    forall j :: i < j < |events| && events[j].Interrupt? && events[j].scan >= 128 ==> events[j].scan - 128 !in codes
  }

  ghost predicate Bytes(events: seq<Event>) {
    forall i :: 0 <= i < |events| && events[i].Interrupt? ==> events[i].scan < 256
  }

  lemma {:induction false} RunSnoc(s: State, events: seq<Event>, e: Event)
    requires s.Ok()
    ensures Run(s, events + [e]) == Step(Run(s, events), e)
    decreases |events|
  {
    var all := events + [e];
    StepKeepsOk(s, all[0]);
    if events != [] {
      assert all[1..] == events[1..] + [e];
      RunSnoc(Step(s, events[0]), events[1..], e);
    } else {
      assert all[1..] == [];
    }
  }

  lemma HeldNext(events: seq<Event>, e: Event, codes: set<nat>)
    requires Bytes(events + [e]) && forall c :: c in codes ==> c < 128
    ensures Held(events + [e], codes) <==>
      IsScan(e, codes) || (Held(events, codes) && !(e.Interrupt? && e.scan >= 128 && e.scan - 128 in codes))
  {
    var all := events + [e];
    var n := |events|;
    assert all[n] == e && forall i :: 0 <= i < n ==> all[i] == events[i];
    if IsScan(e, codes) {
      assert IsScan(all[n], codes) && NoRelease(all, n, codes);
    } else if i :| 0 <= i < n && IsScan(events[i], codes) && NoRelease(events, i, codes) {
      assert IsScan(all[i], codes);
      if !(e.Interrupt? && e.scan >= 128 && e.scan - 128 in codes) {
        assert NoRelease(all, i, codes);
      }
    }
    if i :| 0 <= i < |all| && IsScan(all[i], codes) && NoRelease(all, i, codes) {
      if i < n {
        assert IsScan(events[i], codes);
        assert NoRelease(events, i, codes) by {
          forall j | i < j < |events| && events[j].Interrupt? && events[j].scan >= 128
            ensures events[j].scan - 128 !in codes
          {
            assert all[j] == events[j];
          }
        }
      }
    }
  }

  lemma StepModifiers(s: State, e: Event)
    requires s.Ok() && (e.Interrupt? ==> e.scan < 256)
    ensures Step(s, e).shift ==
      (IsScan(e, {0x2A, 0x36}) || (s.shift && !(e.Interrupt? && e.scan >= 128 && e.scan - 128 in {0x2A, 0x36})))
    ensures Step(s, e).ctrl ==
      (IsScan(e, {0x1D}) || (s.ctrl && !(e.Interrupt? && e.scan >= 128 && e.scan - 128 in {0x1D})))
  {
    hide KeyOf;
  }

  /** After any schedule the modifiers say which keys are held down: Shift is 0x2A or 0x36,
      Ctrl is 0x1D. */
  lemma {:induction false} ModifiersFollow(events: seq<Event>)
    requires Bytes(events)
    ensures var s := Run(START, events);
      (s.shift <==> Held(events, {0x2A, 0x36})) && (s.ctrl <==> Held(events, {0x1D}))
    decreases |events|
  {
    if events != [] {
      var front, e := events[..|events| - 1], events[|events| - 1];
      assert events == front + [e];
      ModifiersFollow(front);
      RunSnoc(START, front, e);
      StepModifiers(Run(START, front), e);
      hide Step, Run, IsScan, Held;
      HeldNext(front, e, {0x2A, 0x36});
      HeldNext(front, e, {0x1D});
    }
  }

  /** The letters of the keyboard, row by row, and the scan codes of the first of each. */
  const SMALL: seq<string> := ["qwertyuiop", "asdfghjkl", "zxcvbnm"]
  const CAPITAL: seq<string> := ["QWERTYUIOP", "ASDFGHJKL", "ZXCVBNM"]
  const FIRST_CODE: seq<nat> := [0x10, 0x1E, 0x2C]

  lemma TopRow(k: nat)
    requires k < 10
    ensures Mapped(0x10 + k, false) == "qwertyuiop"[k] as int && Mapped(0x10 + k, true) == "QWERTYUIOP"[k] as int
    ensures "QWERTYUIOP"[k] as int == "qwertyuiop"[k] as int - 32
  {
  }

  lemma MiddleRow(k: nat)
    requires k < 9
    ensures Mapped(0x1E + k, false) == "asdfghjkl"[k] as int && Mapped(0x1E + k, true) == "ASDFGHJKL"[k] as int
    ensures "ASDFGHJKL"[k] as int == "asdfghjkl"[k] as int - 32
  {
  }

  lemma BottomRow(k: nat)
    requires k < 7
    ensures Mapped(0x2C + k, false) == "zxcvbnm"[k] as int && Mapped(0x2C + k, true) == "ZXCVBNM"[k] as int
    ensures "ZXCVBNM"[k] as int == "zxcvbnm"[k] as int - 32
  {
  }

  lemma LetterMapped(row: nat, k: nat)
    requires row < 3 && k < |SMALL[row]|
    ensures k < |CAPITAL[row]| && CAPITAL[row][k] as int == SMALL[row][k] as int - 32
    ensures Mapped(FIRST_CODE[row] + k, false) == SMALL[row][k] as int
    ensures Mapped(FIRST_CODE[row] + k, true) == CAPITAL[row][k] as int
  {
    hide Mapped;
    if row == 0 {
      TopRow(k);
    } else if row == 1 {
      MiddleRow(k);
    } else {
      BottomRow(k);
    }
  }

  /** Which of the letters are D and C. */
  lemma ControlLetters(row: nat, k: nat)
    requires row < 3 && k < |SMALL[row]|
    ensures SMALL[row][k] == 'd' <==> FIRST_CODE[row] + k == 0x20
    ensures SMALL[row][k] == 'c' <==> FIRST_CODE[row] + k == 0x2E
  {
  }

  lemma KeyOfMiddle(scan: nat, shift: bool, ctrl: bool)
    requires 0x10 <= scan <= 0x32 && scan != 0x1D && scan != 0x2A
    ensures KeyOf(scan, shift, ctrl) ==
      if ctrl && scan == 0x20 then 0x108 else if ctrl && scan == 0x2E then 0x109 else Mapped(scan, shift)
  {
    hide Mapped;
  }

  lemma LetterCodes(row: nat, k: nat)
    requires row < 3 && k < |SMALL[row]|
    ensures var scan := FIRST_CODE[row] + k; 0x10 <= scan <= 0x32 && scan != 0x1D && scan != 0x2A
  {
  }

  /** What a letter key means: the small letter, or with Shift the capital, 32 below it;
      Ctrl matters for D and C only. */
  function LetterOn(row: nat, k: nat, shift: bool, ctrl: bool): int
    requires row < 3 && k < |SMALL[row]|
  {
    var small := SMALL[row][k];
    if ctrl && small == 'd' then 0x108
    else if ctrl && small == 'c' then 0x109
    else if shift then small as int - 32
    else small as int
  }

  /** The keys are as they are labelled. */
  lemma LetterKeys(row: nat, k: nat, shift: bool, ctrl: bool)
    requires row < 3 && k < |SMALL[row]|
    ensures KeyOf(FIRST_CODE[row] + k, shift, ctrl) == LetterOn(row, k, shift, ctrl)
  {
    LetterMapped(row, k);
    ControlLetters(row, k);
    LetterCodes(row, k);
    hide KeyOf, Mapped;
    KeyOfMiddle(FIRST_CODE[row] + k, shift, ctrl);
  }

  /** Up, down, left, right, home, end, page up and page down, whatever is held down. */
  lemma CursorKeys(shift: bool, ctrl: bool)
    ensures KeyOf(0x48, shift, ctrl) == 0x100 && KeyOf(0x50, shift, ctrl) == 0x101
    ensures KeyOf(0x4B, shift, ctrl) == 0x102 && KeyOf(0x4D, shift, ctrl) == 0x103
    ensures KeyOf(0x47, shift, ctrl) == 0x104 && KeyOf(0x4F, shift, ctrl) == 0x105
    ensures KeyOf(0x49, shift, ctrl) == 0x106 && KeyOf(0x51, shift, ctrl) == 0x107
  {
    hide Mapped;
  }

  lemma DigitsMapped(k: nat)
    requires k < 10
    ensures Mapped(2 + k, false) == "1234567890"[k] as int && Mapped(2 + k, true) == "!@#$%^&*()"[k] as int
  {
  }

  lemma DigitKeys(k: nat, shift: bool, ctrl: bool)
    requires k < 10
    ensures KeyOf(2 + k, shift, ctrl) == (if shift then "!@#$%^&*()"[k] else "1234567890"[k]) as int
  {
    DigitsMapped(k);
    hide KeyOf, Mapped;
    KeyOfLow(2 + k, shift, ctrl);
  }

  lemma KeyOfLow(scan: nat, shift: bool, ctrl: bool)
    requires scan < 0x1D
    ensures KeyOf(scan, shift, ctrl) == Mapped(scan, shift)
  {
    hide Mapped;
  }

  /** A letter struck after any schedule is offered to the ring as it is labelled, by what
      is then held down; its release offers nothing. */
  lemma LetterStruck(events: seq<Event>, row: nat, k: nat)
    requires Bytes(events) && row < 3 && k < |SMALL[row]|
    ensures
      var s, scan := Run(START, events), FIRST_CODE[row] + k;
      && |OfferOf(s, Interrupt(scan))| == 1
      && OfferOf(s, Interrupt(scan))[0].key
          == LetterOn(row, k, Held(events, {0x2A, 0x36}), Held(events, {0x1D}))
      && OfferOf(s, Interrupt(scan + 128)) == []
  {
    var s := Run(START, events);
    ModifiersFollow(events);
    LetterKeys(row, k, s.shift, s.ctrl);
    LettersAreKeys(row, k, s.shift, s.ctrl);
    hide Held, Run, Step, LetterOn, KeyOf;
  }

  lemma LettersAreKeys(row: nat, k: nat, shift: bool, ctrl: bool)
    requires row < 3 && k < |SMALL[row]|
    ensures LetterOn(row, k, shift, ctrl) > 0 && KeyOf(FIRST_CODE[row] + k + 128, shift, ctrl) == 0
  {
    SmallLetters(row, k);
    hide Mapped;
  }

  lemma SmallLetters(row: nat, k: nat)
    requires row < 3 && k < |SMALL[row]|
    ensures 'a' <= SMALL[row][k] <= 'z'
  {
  }

  // ----- the driver

  class Driver {
    const buf: array<int>
    var head: nat
    var tail: nat
    var shiftDown: bool
    var ctrlDown: bool
    var pc: Pc  // of the call of keyboard_get in progress
    var c: int  // its local variable

    function Abs(): State
      reads this, buf
    {
      State(buf[..], head, tail, shiftDown, ctrlDown, pc, c)
    }

    /** keyboard_init */
    constructor ()
      ensures fresh(buf) && Abs() == START
    {
      buf := new int[128](_ => 0);
      head, tail := 0, 0;
      shiftDown, ctrlDown := false, false;
      pc, c := Idle, 0;
      new;
      assert buf[..] == START.buf;
    }

    method BufPush(key: int)
      requires Abs().Ok()
      modifies this`head, buf
      ensures Abs() == Push(old(Abs()), key)
    {
      var next := (head + 1) % SIZE;
      if next == tail {
        return;
      }
      ghost var after := buf[..][head := key];
      buf[head] := key;
      assert buf[..] == after;
      head := next;
    }

    /** keyboard_irq, with the scan code read from port 0x60 */
    method KeyboardIrq(scan: nat)
      requires Abs().Ok() && scan < 256
      modifies this`head, this`shiftDown, this`ctrlDown, buf
      ensures Abs() == Irq(old(Abs()), scan)
    {
      var code := scan % 128;
      var released := scan >= 128;
      if code == 0x2A || code == 0x36 {
        shiftDown := !released;
        return;
      }
      if code == 0x1D {
        ctrlDown := !released;
        return;
      }
      if released {
        return;
      }
      if code == 0xE0 {
        assert false;  // the top bit is masked off
      }
      if ctrlDown {
        if code == 0x20 {
          BufPush(KB_CTRL_D);
          return;
        }
        if code == 0x2E {
          BufPush(KB_CTRL_C);
          return;
        }
      }
      if CursorKey(code) != 0 {
        BufPush(CursorKey(code));
        return;
      }
      var key := Mapped(code, shiftDown);
      if key != 0 {
        BufPush(key);
      }
    }

    /** The next statement of keyboard_get; `key` is what it returns, at its return. */
    method KeyboardGetStep() returns (key: seq<int>)
      requires Abs().Ok()
      modifies this`tail, this`pc, this`c
      ensures Abs() == Consume(old(Abs())) && key == ReturnOf(old(Abs()), Statement)
    {
      key := [];
      match pc {
        case Idle => pc := Test;
        case Test => pc := if head == tail then Halt else Read;
        case Halt => pc := Test;
        case Read =>
          c := buf[tail];
          pc := Store;
        case Store =>
          tail := (tail + 1) % SIZE;
          pc := Return;
        case Return =>
          key := [c];
          pc := Idle;
      }
    }

    method StepOn(e: Event) returns (key: seq<int>)
      requires Abs().Ok() && (e.Interrupt? ==> e.scan < 256)
      modifies this`head, this`tail, this`shiftDown, this`ctrlDown, this`pc, this`c, buf
      ensures Abs() == Step(old(Abs()), e) && Abs().Ok() && key == ReturnOf(old(Abs()), e)
    {
      StepKeepsOk(Abs(), e);
      match e {
        case Interrupt(scan) =>
          key := [];
          KeyboardIrq(scan);
        case Statement =>
          key := KeyboardGetStep();
      }
    }

    /** Any schedule of interrupts and statements. */
    method Play(events: seq<Event>) returns (keys: seq<int>)
      requires Abs().Ok() && forall e :: e in events && e.Interrupt? ==> e.scan < 256
      modifies this, buf
      ensures Abs() == Run(old(Abs()), events) && keys == Returned(old(Abs()), events)
    {
      hide Step, ReturnOf;
      ghost var start := Abs();
      keys := [];
      for i := 0 to |events|
        invariant Abs().Ok()
        invariant Run(Abs(), events[i..]) == Run(start, events)
        invariant keys + Returned(Abs(), events[i..]) == Returned(start, events)
      {
        assert events[i..][0] == events[i] && events[i..][1..] == events[i + 1..];
        var key := StepOn(events[i]);
        keys := keys + key;
      }
    }
  }
}
