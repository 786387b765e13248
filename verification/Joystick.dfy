/**
 * The joystick firmware's serial protocol: one byte per command, each pressing or
 * releasing a button, moving the hat or a stick, or resetting the controller.
 */
module Joystick {
  import opened Bytes

  const HAT_CENTER: byte := 8
  const STICK_MIN: byte := 0
  const STICK_CENTER: byte := 128
  const STICK_MAX: byte := 255
  const RESET: byte := 49

  /** A button, as the single bit it occupies in the report. */
  predicate OneBit(m: bv16) { m != 0 && m & (m - 1) == 0 }

  /** What the console sees: the buttons held, the hat and the sticks. */
  datatype Report = Report(pressed: set<bv16>, hat: byte, lx: byte, ly: byte, rx: byte, ry: byte)

  const CENTERED := Report({}, HAT_CENTER, STICK_CENTER, STICK_CENTER, STICK_CENTER, STICK_CENTER)

  // ---------------------------------------------------------------------------
  // The protocol
  // ---------------------------------------------------------------------------

  /** The button of a code; odd codes press it and even codes release it. */
  function ButtonOf(c: byte): Option<bv16> {
    if 1 <= c <= 20 then
      Some([0x0004, 0x0002, 0x0008, 0x0001, 0x0010, 0x0020, 0x0040, 0x0080, 0x0400, 0x0800][(c - 1) / 2])
    else if 29 <= c <= 36 then Some([0x0200, 0x0100, 0x1000, 0x2000][(c - 29) / 2])
    else None
  }

  function HatOf(c: byte): Option<byte> {
    if 21 <= c <= 28 then Some(if c % 2 == 0 then HAT_CENTER else [0, 4, 6, 2][(c - 21) / 2]) else None
  }

  /** Three codes from `first` on move a stick to its minimum, maximum and center. */
  function StickOf(c: byte, first: byte): Option<byte> {
    if first <= c <= first + 2 then Some([STICK_MIN, STICK_MAX, STICK_CENTER][c - first]) else None
  }

  function LxOf(c: byte): Option<byte> { StickOf(c, 37) }
  function RxOf(c: byte): Option<byte> { StickOf(c, 43) }

  /** Codes 46 to 48 move the left stick too. */
  function LyOf(c: byte): Option<byte> {
    if StickOf(c, 40).Some? then StickOf(c, 40) else StickOf(c, 46)
  }

  function Or(o: Option<byte>, default: byte): byte { if o.Some? then o.value else default }

  function Apply(r: Report, c: byte): Report {
    if c == RESET then CENTERED
    else
      Report(
        match ButtonOf(c) {
          case Some(m) => if c % 2 == 1 then r.pressed + {m} else r.pressed - {m}
          case None => r.pressed
        },
        Or(HatOf(c), r.hat), Or(LxOf(c), r.lx), Or(LyOf(c), r.ly), Or(RxOf(c), r.rx), r.ry)
  }

  /** What the firmware answers on the serial line. */
  function Answer(c: byte): string {
    if c == 0 then "I'm Ready!" else if c > RESET then "?" else ""
  }

  function Answers(stream: seq<byte>): string {
    if stream == [] then "" else Answer(stream[0]) + Answers(stream[1..])
  }

  function Run(stream: seq<byte>): Report {
    if stream == [] then CENTERED else Apply(Run(stream[..|stream| - 1]), stream[|stream| - 1])
  }

  // ---------------------------------------------------------------------------
  // The report as a function of the history
  // ---------------------------------------------------------------------------

  /** The last byte of the stream that is one of `codes`. */
  function LastOf(stream: seq<byte>, codes: set<byte>): Option<byte> {
    if stream == [] then None
    else if stream[|stream| - 1] in codes then Some(stream[|stream| - 1])
    else LastOf(stream[..|stream| - 1], codes)
  }

  ghost function CodesOf(m: bv16): set<byte> { set c: byte | c == RESET || ButtonOf(c) == Some(m) }
  ghost function HatCodes(): set<byte> { set c: byte | c == RESET || HatOf(c).Some? }
  ghost function LxCodes(): set<byte> { set c: byte | c == RESET || LxOf(c).Some? }
  ghost function RxCodes(): set<byte> { set c: byte | c == RESET || RxOf(c).Some? }
  ghost function LyCodes(): set<byte> { set c: byte | c == RESET || LyOf(c).Some? }

  /** A button is held exactly when the last of its codes, or the reset, was its press code. */
  lemma {:induction false} HeldFromHistory(stream: seq<byte>, m: bv16)
    ensures m in Run(stream).pressed <==>
            LastOf(stream, CodesOf(m)).Some? && LastOf(stream, CodesOf(m)).value % 2 == 1
            && LastOf(stream, CodesOf(m)).value != RESET
    decreases |stream|
  {
    if stream != [] {
      HeldFromHistory(stream[..|stream| - 1], m);
    }
  }

  /** A position is that of its last code, and centered after a reset. */
  ghost predicate Positioned(value: byte, last: Option<byte>, center: byte, of: byte -> Option<byte>) {
    value == if last.Some? && last.value != RESET then Or(of(last.value), center) else center
  }

  lemma {:induction false} PositionsFromHistory(stream: seq<byte>)
    ensures var r := Run(stream);
      && Positioned(r.hat, LastOf(stream, HatCodes()), HAT_CENTER, HatOf)
      && Positioned(r.lx, LastOf(stream, LxCodes()), STICK_CENTER, LxOf)
      && Positioned(r.ly, LastOf(stream, LyCodes()), STICK_CENTER, LyOf)
      && Positioned(r.rx, LastOf(stream, RxCodes()), STICK_CENTER, RxOf)
      && r.ry == STICK_CENTER
    decreases |stream|
  {
    if stream != [] {
      PositionsFromHistory(stream[..|stream| - 1]);
    }
  }

  // ---------------------------------------------------------------------------
  // The same with the codes and bits written out
  // ---------------------------------------------------------------------------

  datatype Button = Y | B | A | X | L | R | ZL | ZR | Select | Start | LClick | RClick | Home | Capture {
    /** The bit of the report. */
    function Bit(): bv16 {
      match this
      case Y => 0x0001
      case B => 0x0002
      case A => 0x0004
      case X => 0x0008
      case L => 0x0010
      case R => 0x0020
      case ZL => 0x0040
      case ZR => 0x0080
      case Select => 0x0100
      case Start => 0x0200
      case LClick => 0x0400
      case RClick => 0x0800
      case Home => 0x1000
      case Capture => 0x2000
    }

    /** The code that presses it; the next one releases it. */
    function PressCode(): (code: byte)
      ensures code % 2 == 1 && code < 48
    {
      match this
      case A => 1
      case B => 3
      case X => 5
      case Y => 7
      case L => 9
      case R => 11
      case ZL => 13
      case ZR => 15
      case LClick => 17
      case RClick => 19
      case Start => 29
      case Select => 31
      case Home => 33
      case Capture => 35
    }
  }

  /** The codes of the first ten buttons, in the order of the codes. */
  lemma LowCodes(i: nat, c: byte)
    requires i < 10
    ensures ButtonOf(c) == ButtonOf(2 * i + 1) <==> c == 2 * i + 1 || c == 2 * i + 2
  {
  }

  lemma HighCodes(i: nat, c: byte)
    requires i < 4
    ensures ButtonOf(c) == ButtonOf(2 * i + 29) <==> c == 2 * i + 29 || c == 2 * i + 30
  {
  }

  lemma PressedBit(b: Button)
    ensures ButtonOf(b.PressCode()) == Some(b.Bit())
  {
  }

  lemma ButtonCodes(b: Button, c: byte)
    ensures c in CodesOf(b.Bit()) <==> c == b.PressCode() || c == b.PressCode() + 1 || c == 49
  {
    hide ButtonOf, Button.Bit;
    PressedBit(b);
    if b.PressCode() < 20 {
      LowCodes(b.PressCode() / 2, c);
    } else {
      HighCodes((b.PressCode() - 29) / 2, c);
    }
  }

  /** Each button is held if and only if its press code came after its release code and code 49. */
  lemma ButtonFromHistory(stream: seq<byte>, b: Button)
    ensures var press := b.PressCode();
      b.Bit() in Run(stream).pressed <==> LastOf(stream, {press, press + 1, 49}) == Some(press)
  {
    hide Run, LastOf, CodesOf, Button.Bit, Button.PressCode;
    var press: byte := b.PressCode();
    forall c: byte
      ensures c in CodesOf(b.Bit()) <==> c in {press, press + 1, 49}
    {
      ButtonCodes(b, c);
    }
    assert CodesOf(b.Bit()) == {press, press + 1, 49};
    HeldFromHistory(stream, b.Bit());
    LastIsMember(stream, {press, press + 1, 49});
  }

  lemma {:induction false} LastIsMember(stream: seq<byte>, codes: set<byte>)
    ensures var last := LastOf(stream, codes);
      last.Some? ==> last.value in codes
    decreases |stream|
  {
    if stream != [] {
      LastIsMember(stream[..|stream| - 1], codes);
    }
  }

  /** The position of a stick after the last of its codes: minimum, maximum or center. */
  function StickAfter(last: Option<byte>, least: set<byte>, most: set<byte>): byte {
    if last.None? then 128 else if last.value in least then 0 else if last.value in most then 255 else 128
  }

  /** The hat after the last of its codes: up, down, left, right or center. */
  function HatAfter(last: Option<byte>): byte {
    if last == Some(21) then 0 else if last == Some(23) then 4
    else if last == Some(25) then 6 else if last == Some(27) then 2 else 8
  }

  /** Hat and sticks hold the position of the last code that addressed them. */
  lemma PositionFromHistory(stream: seq<byte>)
    ensures var r := Run(stream);
      && r.hat == HatAfter(LastOf(stream, {21, 22, 23, 24, 25, 26, 27, 28, 49}))
      && r.lx == StickAfter(LastOf(stream, {37, 38, 39, 49}), {37}, {38})
      && r.ly == StickAfter(LastOf(stream, {40, 41, 42, 46, 47, 48, 49}), {40, 46}, {41, 47})
      && r.rx == StickAfter(LastOf(stream, {43, 44, 45, 49}), {43}, {44})
      && r.ry == 128
  {
    hide Run, LastOf, HatOf, LxOf, LyOf, RxOf, HatCodes, LxCodes, LyCodes, RxCodes, HatAfter, StickAfter, Positioned;
    PositionsFromHistory(stream);
    HatWritten(stream);
    LeftWritten(stream);
    RightWritten(stream);
  }

  lemma HatWritten(stream: seq<byte>)
    ensures HatCodes() == {21, 22, 23, 24, 25, 26, 27, 28, 49}
    ensures forall v: byte :: Positioned(v, LastOf(stream, HatCodes()), HAT_CENTER, HatOf) ==>
              v == HatAfter(LastOf(stream, HatCodes()))
  {
    hide LastOf;
    LastIsMember(stream, HatCodes());
  }

  lemma LeftWritten(stream: seq<byte>)
    ensures LxCodes() == {37, 38, 39, 49} && LyCodes() == {40, 41, 42, 46, 47, 48, 49}
    ensures forall v: byte :: Positioned(v, LastOf(stream, LxCodes()), STICK_CENTER, LxOf) ==>
              v == StickAfter(LastOf(stream, LxCodes()), {37}, {38})
    ensures forall v: byte :: Positioned(v, LastOf(stream, LyCodes()), STICK_CENTER, LyOf) ==>
              v == StickAfter(LastOf(stream, LyCodes()), {40, 46}, {41, 47})
  {
    hide LastOf;
    LastIsMember(stream, LxCodes());
    LastIsMember(stream, LyCodes());
  }

  lemma RightWritten(stream: seq<byte>)
    ensures RxCodes() == {43, 44, 45, 49}
    ensures forall v: byte :: Positioned(v, LastOf(stream, RxCodes()), STICK_CENTER, RxOf) ==>
              v == StickAfter(LastOf(stream, RxCodes()), {43}, {44})
  {
    hide LastOf;
    LastIsMember(stream, RxCodes());
  }

  /** Only code 0 and codes above 49 are answered. */
  lemma AnswerTo(c: byte)
    ensures Answer(c) == if c == 0 then "I'm Ready!" else if c >= 50 then "?" else ""
  {
  }

  /** The two top bits of the report are never set. */
  lemma {:induction false} TopBitsClear(stream: seq<byte>)
    ensures 0x4000 !in Run(stream).pressed && 0x8000 !in Run(stream).pressed
    decreases |stream|
  {
    if stream != [] {
      TopBitsClear(stream[..|stream| - 1]);
    }
  }

  /** The bytes of the stream that concern one control. */
  function Project(stream: seq<byte>, codes: set<byte>): seq<byte> {
    if stream == [] then []
    else
      var front := Project(stream[..|stream| - 1], codes);
      if stream[|stream| - 1] in codes then front + [stream[|stream| - 1]] else front
  }

  lemma {:induction false} LastOfProjection(stream: seq<byte>, codes: set<byte>)
    ensures var p := Project(stream, codes);
      LastOf(stream, codes) == if p == [] then None else Some(p[|p| - 1])
    decreases |stream|
  {
    if stream != [] {
      LastOfProjection(stream[..|stream| - 1], codes);
    }
  }

  /** Streams that agree on each control separately give the same report. */
  lemma SameProjectionsSameReport(s: seq<byte>, t: seq<byte>)
    requires forall m: bv16 :: Project(s, CodesOf(m)) == Project(t, CodesOf(m))
    requires Project(s, HatCodes()) == Project(t, HatCodes())
    requires Project(s, LxCodes()) == Project(t, LxCodes())
    requires Project(s, LyCodes()) == Project(t, LyCodes())
    requires Project(s, RxCodes()) == Project(t, RxCodes())
    ensures Run(s) == Run(t)
  {
    hide Run, LastOf, Project, CodesOf, HatCodes, LxCodes, RxCodes, LyCodes;
    forall m: bv16
      ensures m in Run(s).pressed <==> m in Run(t).pressed
    {
      HeldFromHistory(s, m);
      HeldFromHistory(t, m);
      LastOfProjection(s, CodesOf(m));
      LastOfProjection(t, CodesOf(m));
    }
    PositionsFromHistory(s);
    PositionsFromHistory(t);
    forall codes: set<byte> | Project(s, codes) == Project(t, codes)
      ensures LastOf(s, codes) == LastOf(t, codes)
    {
      LastOfProjection(s, codes);
      LastOfProjection(t, codes);
    }
  }

  // ---------------------------------------------------------------------------
  // The controller in place
  // ---------------------------------------------------------------------------

  /** The report's button field has exactly the bits of the held buttons. */
  ghost predicate Shows(button: bv16, pressed: set<bv16>) {
    forall m :: OneBit(m) ==> (button & m != 0 <==> m in pressed)
  }

  lemma PressShows(button: bv16, pressed: set<bv16>, bit: bv16)
    requires Shows(button, pressed) && OneBit(bit)
    ensures Shows(button | bit, pressed + {bit}) && Shows(button & !bit, pressed - {bit})
  {
    forall m | OneBit(m)
      ensures (button | bit) & m != 0 <==> m in pressed + {bit}
      ensures (button & !bit) & m != 0 <==> m in pressed - {bit}
    {
      OneBitSet(button, bit, m);
    }
  }

  lemma OneBitSet(b: bv16, bit: bv16, m: bv16)
    requires OneBit(bit) && OneBit(m)
    ensures (b | bit) & m != 0 <==> (b & m != 0 || m == bit)
    ensures (b & !bit) & m != 0 <==> (b & m != 0 && m != bit)
  {
  }

  class VirtualController {
    var button: bv16
    var hat: byte
    var lx: byte
    var ly: byte
    var rx: byte
    var ry: byte
    var serial: string
    ghost var pressed: set<bv16>

    ghost predicate Valid()
      reads this
    {
      Shows(button, pressed)
    }

    ghost function Value(): (r: Report)
      reads this
    {
      Report(pressed, hat, lx, ly, rx, ry)
    }

    constructor ()
      ensures Valid() && Value() == CENTERED && serial == ""
    {
      button, hat, pressed, serial := 0, HAT_CENTER, {}, "";
      lx, ly, rx, ry := STICK_CENTER, STICK_CENTER, STICK_CENTER, STICK_CENTER;
    }

    method Init()
      modifies this`button, this`hat, this`lx, this`ly, this`rx, this`ry, this`pressed
      ensures Valid() && Value() == CENTERED
    {
      lx, ly, rx, ry := STICK_CENTER, STICK_CENTER, STICK_CENTER, STICK_CENTER;
      hat, button, pressed := HAT_CENTER, 0, {};
    }

    method Press(bit: bv16)
      requires Valid() && OneBit(bit)
      modifies this`button, this`pressed
      ensures Valid() && pressed == old(pressed) + {bit}
    {
      PressShows(button, pressed, bit);
      button, pressed := button | bit, pressed + {bit};
    }

    method Release(bit: bv16)
      requires Valid() && OneBit(bit)
      modifies this`button, this`pressed
      ensures Valid() && pressed == old(pressed) - {bit}
    {
      PressShows(button, pressed, bit);
      button, pressed := button & !bit, pressed - {bit};
    }

    /** A, B, X and Y. */
    method ExecuteFaceButton(c: byte)
      requires Valid() && 1 <= c <= 8
      modifies this`button, this`pressed
      ensures Valid() && Value() == Apply(old(Value()), c)
    {
      hide Shows;
      match c {
        case 1 => Press(0x0004);
        case 2 => Release(0x0004);
        case 3 => Press(0x0002);
        case 4 => Release(0x0002);
        case 5 => Press(0x0008);
        case 6 => Release(0x0008);
        case 7 => Press(0x0001);
        case 8 => Release(0x0001);
      }
    }

    /** L, R, ZL, ZR and the two stick clicks. */
    method ExecuteShoulderButton(c: byte)
      requires Valid() && 9 <= c <= 20
      modifies this`button, this`pressed
      ensures Valid() && Value() == Apply(old(Value()), c)
    {
      hide Shows;
      match c {
        case 9 => Press(0x0010);
        case 10 => Release(0x0010);
        case 11 => Press(0x0020);
        case 12 => Release(0x0020);
        case 13 => Press(0x0040);
        case 14 => Release(0x0040);
        case 15 => Press(0x0080);
        case 16 => Release(0x0080);
        case 17 => Press(0x0400);
        case 18 => Release(0x0400);
        case 19 => Press(0x0800);
        case 20 => Release(0x0800);
      }
    }

    /** Start, select, home and capture. */
    method ExecuteSystemButton(c: byte)
      requires Valid() && 29 <= c <= 36
      modifies this`button, this`pressed
      ensures Valid() && Value() == Apply(old(Value()), c)
    {
      hide Shows;
      match c {
        case 29 => Press(0x0200);
        case 30 => Release(0x0200);
        case 31 => Press(0x0100);
        case 32 => Release(0x0100);
        case 33 => Press(0x1000);
        case 34 => Release(0x1000);
        case 35 => Press(0x2000);
        case 36 => Release(0x2000);
      }
    }

    method ExecutePosition(c: byte)
      requires Valid() && (21 <= c <= 28 || 37 <= c <= 48)
      modifies this`hat, this`lx, this`ly, this`rx
      ensures Valid() && Value() == Apply(old(Value()), c)
    {
      match c {
        case 21 => hat := 0;
        case 22 => hat := HAT_CENTER;
        case 23 => hat := 4;
        case 24 => hat := HAT_CENTER;
        case 25 => hat := 6;
        case 26 => hat := HAT_CENTER;
        case 27 => hat := 2;
        case 28 => hat := HAT_CENTER;
        case 37 => lx := STICK_MIN;
        case 38 => lx := STICK_MAX;
        case 39 => lx := STICK_CENTER;
        case 40 => ly := STICK_MIN;
        case 41 => ly := STICK_MAX;
        case 42 => ly := STICK_CENTER;
        case 43 => rx := STICK_MIN;
        case 44 => rx := STICK_MAX;
        case 45 => rx := STICK_CENTER;
        case 46 => ly := STICK_MIN;
        case 47 => ly := STICK_MAX;
        case 48 => ly := STICK_CENTER;
      }
    }

    /** A received byte, or a negative number if there was none. */
    method ExecuteCommand(c: int) returns (more: bool)
      requires Valid() && c < 0x100
      modifies this
      ensures Valid() && more == (c >= 0)
      ensures c < 0 ==> Value() == old(Value()) && serial == old(serial)
      ensures c >= 0 ==> Value() == Apply(old(Value()), c) && serial == old(serial) + Answer(c)
    {
      if c < 0 {
        return false;
      }
      if c == 0 {
        serial := serial + "I'm Ready!";
      } else if c == RESET {
        Init();
      } else if c > RESET {
        serial := serial + "?";
      } else if c <= 8 {
        ExecuteFaceButton(c);
      } else if c <= 20 {
        ExecuteShoulderButton(c);
      } else if 29 <= c <= 36 {
        ExecuteSystemButton(c);
      } else {
        ExecutePosition(c);
      }
      return true;
    }

    /** Drains the bytes received so far. */
    method ReceiveCommand(received: seq<byte>, ghost history: seq<byte>)
      requires Valid() && Value() == Run(history)
      modifies this
      ensures Valid() && Value() == Run(history + received) && serial == old(serial) + Answers(received)
    {
      hide Run, Apply, Answer;
      var next, more := 0, received != [];
      assert history + received[..0] == history && received[0..] == received;
      while more
        invariant 0 <= next <= |received| && Valid() && Value() == Run(history + received[..next])
        invariant serial + Answers(received[next..]) == old(serial) + Answers(received)
        invariant !more ==> next == |received|
        decreases |received| - next, more
      {
        var c := if next < |received| then received[next] else -1;
        ghost var before := serial;
        more := ExecuteCommand(c);
        if more {
          RunSnoc(history + received[..next], received[next]);
          assert history + received[..next] + [received[next]] == history + received[..next + 1];
          assert received[next..][1..] == received[next + 1..];
          assert before + (Answer(received[next]) + Answers(received[next + 1..]))
              == serial + Answers(received[next + 1..]);
          next := next + 1;
        }
      }
      assert received[..next] == received && received[next..] == [];
    }
  }

  lemma RunSnoc(stream: seq<byte>, c: byte)
    ensures Run(stream + [c]) == Apply(Run(stream), c)
  {
    assert (stream + [c])[..|stream|] == stream;
  }
}
