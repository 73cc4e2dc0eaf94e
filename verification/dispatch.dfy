/** The command channel of the arm server: each received text command is
    stripped, matched against a closed set of names and turned into a new
    tracked position and, for a recognised command, one G-code line for the
    arm. The position is owned by one session. */
module Dispatcher {

  import opened Results
  import Decimal
  import Whitespace
  import opened Seqs

  datatype Axis = X | Y | Z

  function AxisLetter(a: Axis): char {
    match a
    case X => 'X'
    case Y => 'Y'
    case Z => 'Z'
  }

  /** The tracked position `{"X": x, "Y": y, "Z": z}`; Python integers are unbounded. */
  datatype Position = Position(x: int, y: int, z: int) {

    function Get(a: Axis): int {
      match a
      case X => x
      case Y => y
      case Z => z
    }

    /** The position with axis `a` set to `v` and the other axes kept. */
    function Set(a: Axis, v: int): (p: Position)
      ensures p.Get(a) == v
      ensures forall b :: b != a ==> p.Get(b) == Get(b)
    {
      match a
      case X => this.(x := v)
      case Y => this.(y := v)
      case Z => this.(z := v)
    }
  }

  const Origin := Position(0, 0, 0)

  /** Distance of one jog step, in the arm's units. */
  const JogStep := 10

  /** The closed command set the server recognises. */
  datatype Command =
    | Jog(axis: Axis, up: bool)   // "X+", "X-", "Y+", "Y-", "Z+", "Z-"
    | ZeroZ                       // "Z0"
    | Home                        // "Home"
    | GoToWorkOrigin              // "GoToWorkOrigin"
    | SetWorkOrigin               // "SetWorkOrigin"
    | Pick                        // "Pick"
    | Place                       // "Place"

  /** The text a client sends for a command. */
  function Name(c: Command): string {
    match c
    case Jog(a, up) => [AxisLetter(a), if up then '+' else '-']
    case ZeroZ => "Z0"
    case Home => "Home"
    case GoToWorkOrigin => "GoToWorkOrigin"
    case SetWorkOrigin => "SetWorkOrigin"
    case Pick => "Pick"
    case Place => "Place"
  }

  /** The recognised names, in the order the command loop tests them. */
  const Commands: seq<Command> := [
    Jog(X, true), Jog(X, false), Jog(Y, true), Jog(Y, false), Jog(Z, true), Jog(Z, false),
    ZeroZ, Home, GoToWorkOrigin, SetWorkOrigin, Pick, Place]

  /** The first command in `cs` whose name is exactly `s`. */
  function Lookup(s: string, cs: seq<Command>): (r: Option<Command>)
    ensures r.Some? ==> Name(r.value) == s && r.value in cs
    ensures r.None? ==> forall i :: 0 <= i < |cs| ==> Name(cs[i]) != s
  {
    if |cs| == 0 then None
    else if Name(cs[0]) == s then Some(cs[0])
    else Lookup(s, cs[1..])
  }

  /** Recognises a command name exactly (case-sensitive, no extra
      characters): the command with that name, or None when no command has it. */
  function Parse(s: string): (r: Option<Command>)
    ensures r.Some? ==> Name(r.value) == s
    ensures r.None? <==> forall c :: Name(c) != s
  {
    var r := Lookup(s, Commands);
    assert r.None? ==> forall c :: Name(c) != s by {
      forall c ensures r.None? ==> Name(c) != s {
        assert c == Commands[IndexOf(c)];
      }
    }
    r
  }

  /** Where each command sits in `Commands`. */
  function IndexOf(c: Command): (i: nat)
    ensures i < |Commands| && Commands[i] == c
  {
    match c
    case Jog(X, up) => if up then 0 else 1
    case Jog(Y, up) => if up then 2 else 3
    case Jog(Z, up) => if up then 4 else 5
    case ZeroZ => 6
    case Home => 7
    case GoToWorkOrigin => 8
    case SetWorkOrigin => 9
    case Pick => 10
    case Place => 11
  }

  /** Different commands have different names. */
  lemma NameInjective(c: Command, d: Command)
    ensures Name(c) == Name(d) ==> c == d
  {
    if Name(c) == Name(d) {
      assert |Name(c)| == |Name(d)|;
      if |Name(c)| == 2 {
        assert Name(c)[0] == Name(d)[0] && Name(c)[1] == Name(d)[1];
      } else {
        assert Name(c)[0] == Name(d)[0];
      }
    }
  }

  /** Every command is recognised by its own name, so names and commands
      are in one-to-one correspondence. */
  lemma ParseName(c: Command)
    ensures Parse(Name(c)) == Some(c)
  {
    var r := Parse(Name(c));
    NameInjective(c, r.value);
  }

  /** The G-code that moves axis `a` to coordinate `v`: "G0 " then the axis letter then `v` in decimal. */
  function MoveCode(a: Axis, v: int): (g: string)
    ensures |g| > 4 && g[..3] == "G0 " && g[3] == AxisLetter(a)
    ensures Decimal.ParseInt(g[4..]) == Some(v)
  {
    var digits := Decimal.IntToString(v);
    Decimal.IntRoundTrip(v);
    var g := "G0 " + [AxisLetter(a)] + digits;
    assert g[4..] == digits;
    g
  }

  /** The effect of a recognised command: the new position and the G-code sent to the arm. */
  function Execute(pos: Position, c: Command): (r: (Position, string))
    ensures |r.1| > 0
    ensures c.Jog? ==> var step := if c.up then JogStep else -JogStep;
      && r.0.Get(c.axis) == pos.Get(c.axis) + step
      && (forall b :: b != c.axis ==> r.0.Get(b) == pos.Get(b))
      && r.1 == MoveCode(c.axis, r.0.Get(c.axis))
  {
    match c
    case Jog(a, up) =>
      var p := pos.Set(a, pos.Get(a) + (if up then JogStep else -JogStep));
      (p, MoveCode(a, p.Get(a)))
    case ZeroZ => (pos.Set(Z, 0), "G0 Z0")
    case Home => (Origin, "G28")
    case GoToWorkOrigin => (Origin, "G0 X0 Y0 Z0")
    case SetWorkOrigin => (pos, "G92 X0 Y0 Z0")
    case Pick => (pos, "M1000")
    case Place => (pos, "M1001")
  }

  /** One step of the command loop on an already stripped command: the new
      position and the G-code to forward, or None for an unrecognised command. */
  function Dispatch(pos: Position, cmd: string): (r: (Position, Option<string>))
    ensures r.1.None? <==> Parse(cmd).None?
    ensures r.1.None? ==> r.0 == pos
    ensures r.1.Some? ==> |r.1.value| > 0
  {
    match Parse(cmd)
    case None => (pos, None)
    case Some(c) =>
      var (p, g) := Execute(pos, c);
      (p, Some(g))
  }

  /** The fixed commands: "Z0" zeroes Z only, "Home" and "GoToWorkOrigin"
      both return every axis to 0, and "SetWorkOrigin", "Pick" and "Place"
      keep the position; each has its own G-code. */
  lemma FixedCommands(pos: Position, cmd: string)
    ensures var r := Dispatch(pos, cmd);
      && (cmd == "Z0" ==> r == (Position(pos.x, pos.y, 0), Some("G0 Z0")))
      && (cmd == "Home" ==> r == (Position(0, 0, 0), Some("G28")))
      && (cmd == "GoToWorkOrigin" ==> r == (Position(0, 0, 0), Some("G0 X0 Y0 Z0")))
      && (cmd == "SetWorkOrigin" ==> r == (pos, Some("G92 X0 Y0 Z0")))
      && (cmd == "Pick" ==> r == (pos, Some("M1000")))
      && (cmd == "Place" ==> r == (pos, Some("M1001")))
  {
    ParseName(ZeroZ);
    ParseName(Home);
    ParseName(GoToWorkOrigin);
    ParseName(SetWorkOrigin);
    ParseName(Pick);
    ParseName(Place);
  }

  /** A jog command moves only the named axis, by exactly one step in the
      named direction, and its G-code carries the axis letter and the
      axis's coordinate after the move. */
  lemma JogMovesOneAxis(pos: Position, a: Axis, up: bool)
    ensures var (p, g) := Dispatch(pos, Name(Jog(a, up)));
      && p.Get(a) == pos.Get(a) + (if up then 10 else -10)
      && (forall b :: b != a ==> p.Get(b) == pos.Get(b))
      && g == Some("G0 " + [AxisLetter(a)] + Decimal.IntToString(p.Get(a)))
  {
    ParseName(Jog(a, up));
  }

  /** The coordinate in a jog G-code reads back as the axis's new value, so
      the G-code always names the exact target the server now tracks. */
  lemma JogCodeReadsBack(pos: Position, a: Axis, up: bool)
    ensures var (p, g) := Dispatch(pos, Name(Jog(a, up)));
      && g.Some? && |g.value| > 4
      && g.value[..3] == "G0 " && g.value[3] == AxisLetter(a)
      && Decimal.ParseInt(g.value[4..]) == Some(p.Get(a))
  {
    JogMovesOneAxis(pos, a, up);
    var (p, g) := Dispatch(pos, Name(Jog(a, up)));
    var digits := Decimal.IntToString(p.Get(a));
    assert g.value[4..] == digits;
    Decimal.IntRoundTrip(p.Get(a));
  }

  /** The server's reply to a command: whatever the arm answers to the
      forwarded G-code, or the fixed text for an unrecognised command. */
  datatype Reply = ArmResponse(gcode: string) | InvalidCommand

  const InvalidCommandText := "Invalid Command"

  /** The reply text, given the arm link's answer to a G-code line. */
  function ReplyText(r: Reply, arm: string -> string): string {
    match r
    case ArmResponse(g) => arm(g)
    case InvalidCommand => InvalidCommandText
  }

  function Respond(gcode: Option<string>): (r: Reply)
    ensures r.InvalidCommand? <==> gcode.None?
  {
    match gcode
    case Some(g) => ArmResponse(g)
    case None => InvalidCommand
  }

  /** A command that is no command's name leaves the position alone and is
      answered with exactly "Invalid Command"; any other is answered with
      the arm's response to its G-code. */
  lemma InvalidCommandReply(pos: Position, cmd: string, arm: string -> string)
    ensures (forall c :: Name(c) != cmd) <==> Step(pos, cmd).1 == InvalidCommand
    ensures (forall c :: Name(c) != cmd) ==>
      Step(pos, cmd).0 == pos && ReplyText(Step(pos, cmd).1, arm) == "Invalid Command"
    ensures !(forall c :: Name(c) != cmd) ==>
      Dispatch(pos, cmd).1.Some? && ReplyText(Step(pos, cmd).1, arm) == arm(Dispatch(pos, cmd).1.value)
  {
  }

  /** A message ends the session when nothing but whitespace is left after stripping. */
  predicate Blank(msg: string) {
    |Whitespace.Strip(msg)| == 0
  }

  /** The state a command session reaches: the tracked position, one reply per
      answered message, and whether a blank message has closed the connection. */
  datatype Session = Session(position: Position, replies: seq<Reply>, closed: bool)

  /** One turn of the command loop on an already stripped, non-empty
      command: the new position and the reply. */
  function Step(pos: Position, cmd: string): (r: (Position, Reply))
    ensures r.1.InvalidCommand? <==> Parse(cmd).None?
    ensures r.1.InvalidCommand? ==> r.0 == pos
  {
    var d := Dispatch(pos, cmd);
    (d.0, Respond(d.1))
  }

  /** The command loop over already stripped commands, for a given turn
      function: each command is taken in order; the first empty one ends
      the session and is not answered, and commands after it are never read. */
  function Loop(turn: (Position, string) -> (Position, Reply), pos: Position, cmds: seq<string>): (s: Session)
    ensures |s.replies| <= |cmds|
    decreases cmds
  {
    if |cmds| == 0 then
      Session(pos, [], false)
    else if |cmds[0]| == 0 then
      Session(pos, [], true)
    else
      var (p, reply) := turn(pos, cmds[0]);
      var rest := Loop(turn, p, cmds[1..]);
      Session(rest.position, [reply] + rest.replies, rest.closed)
  }

  /** The loop answers every command before the first empty one, and
      closes exactly when it stops at an empty command. */
  lemma {:induction false} LoopAnswers(turn: (Position, string) -> (Position, Reply), pos: Position, cmds: seq<string>)
    ensures var s := Loop(turn, pos, cmds);
      && (forall i :: 0 <= i < |s.replies| ==> |cmds[i]| > 0)
      && (s.closed <==> |s.replies| < |cmds|)
      && (s.closed ==> |cmds[|s.replies|]| == 0)
    decreases cmds
  {
    if |cmds| > 0 && |cmds[0]| > 0 {
      var rest := Loop(turn, turn(pos, cmds[0]).0, cmds[1..]);
      LoopAnswers(turn, turn(pos, cmds[0]).0, cmds[1..]);
      forall i | 0 < i < 1 + |rest.replies|
        ensures |cmds[i]| > 0
      {
        assert cmds[i] == cmds[1..][i - 1];
      }
    }
  }

  /** The server's command loop over already stripped commands. */
  function Serve(pos: Position, cmds: seq<string>): (s: Session)
    ensures |s.replies| <= |cmds|
    ensures forall i :: 0 <= i < |s.replies| ==> |cmds[i]| > 0
    ensures s.closed <==> |s.replies| < |cmds|
    ensures s.closed ==> |cmds[|s.replies|]| == 0
  {
    LoopAnswers(Step, pos, cmds);
    Loop(Step, pos, cmds)
  }

  /** The stripped form of every message. */
  function Stripped(msgs: seq<string>): (r: seq<string>)
    ensures |r| == |msgs|
    ensures forall i :: 0 <= i < |msgs| ==> r[i] == Whitespace.Strip(msgs[i])
  {
    Map(Whitespace.Strip, msgs)
  }

  /** `handle_client` on the sequence of messages received on one connection:
      every message is stripped before it is matched, and the session is
      answered message by message until the first blank one. */
  function HandleClient(pos: Position, msgs: seq<string>): (s: Session)
    ensures |s.replies| <= |msgs|
    ensures forall i :: 0 <= i < |s.replies| ==> !Blank(msgs[i])
    ensures s.closed <==> |s.replies| < |msgs|
    ensures s.closed ==> Blank(msgs[|s.replies|])
  {
    Serve(pos, Stripped(msgs))
  }

  /** A session's first reply is the dispatch of its first stripped message. */
  lemma FirstReply(pos: Position, msg: string, more: seq<string>)
    requires !Whitespace.AllSpace(msg)
    ensures var s := HandleClient(pos, [msg] + more);
      && |s.replies| > 0
      && s.replies[0] == Respond(Dispatch(pos, Whitespace.Strip(msg)).1)
  {
    Whitespace.StripBlank(msg);
    assert Stripped([msg] + more)[0] == Whitespace.Strip(msg);
  }

  /** Running the loop on two batches of commands one after the other is
      running it on their concatenation, provided the first batch does not
      close the session. */
  lemma {:induction false} LoopAppend(turn: (Position, string) -> (Position, Reply),
                                      pos: Position, a: seq<string>, b: seq<string>)
    requires forall i :: 0 <= i < |a| ==> |a[i]| > 0
    ensures var s1 := Loop(turn, pos, a);
      var s2 := Loop(turn, s1.position, b);
      Loop(turn, pos, a + b) == Session(s2.position, s1.replies + s2.replies, s2.closed)
    decreases a
  {
    if |a| == 0 {
      assert a + b == b;
    } else {
      var d := turn(pos, a[0]);
      var t1 := Loop(turn, d.0, a[1..]);
      var s2 := Loop(turn, t1.position, b);
      ConsAppend(a, b);
      LoopAppend(turn, d.0, a[1..], b);
      AppendAssoc([d.1], t1.replies, s2.replies);
    }
  }

  /** Serving two batches of commands one after the other is serving their
      concatenation, provided the first batch does not close the session. */
  lemma ServeAppend(pos: Position, a: seq<string>, b: seq<string>)
    requires forall i :: 0 <= i < |a| ==> |a[i]| > 0
    ensures var s1 := Serve(pos, a);
      var s2 := Serve(s1.position, b);
      Serve(pos, a + b) == Session(s2.position, s1.replies + s2.replies, s2.closed)
  {
    LoopAppend(Step, pos, a, b);
  }

  /** Whitespace around a command does not change what it does. */
  lemma PaddingIgnored(pos: Position, pre: string, c: Command, post: string)
    requires Whitespace.AllSpace(pre) && Whitespace.AllSpace(post)
    ensures HandleClient(pos, [pre + Name(c) + post]) == Serve(pos, [Name(c)])
  {
    assert Whitespace.Trimmed(Name(c));
    Whitespace.StripRemovesPadding(pre, Name(c), post);
    assert Stripped([pre + Name(c) + post]) == [Name(c)];
  }

  /** Whether a command leaves the position unchanged or moves it by jogs
      only: every command except "Z0", "Home" and "GoToWorkOrigin". */
  predicate NonResetting(cmd: string) {
    cmd != "Z0" && cmd != "Home" && cmd != "GoToWorkOrigin"
  }

  /** How far one step of a session without resets moves axis `a`: one
      jog step per "+" jog of `a`, minus one per "-" jog of `a`, and nothing
      for any other command. */
  function JogDelta(cmd: string, a: Axis): int {
    if cmd == Name(Jog(a, true)) then JogStep
    else if cmd == Name(Jog(a, false)) then -JogStep
    else 0
  }

  /** A non-resetting command moves axis `a` by its jog delta. */
  lemma StepMoves(pos: Position, cmd: string, a: Axis)
    requires NonResetting(cmd)
    ensures Step(pos, cmd).0.Get(a) == pos.Get(a) + JogDelta(cmd, a)
  {
    match Parse(cmd)
    case None =>
    case Some(c) =>
      NameInjective(c, Jog(a, true));
      NameInjective(c, Jog(a, false));
  }

  /** One turn of the command loop on a non-empty command. */
  lemma LoopStep(turn: (Position, string) -> (Position, Reply), pos: Position, cmds: seq<string>)
    requires |cmds| > 0 && |cmds[0]| > 0
    ensures Loop(turn, pos, cmds).position == Loop(turn, turn(pos, cmds[0]).0, cmds[1..]).position
  {
  }

  /** Reference for a session without resets: each axis ends where it started
      plus one step per "+" jog of that axis minus one step per "-" jog,
      whatever the order of the commands. */
  lemma {:induction false} NetJogDisplacement(pos: Position, cmds: seq<string>, a: Axis)
    requires forall i :: 0 <= i < |cmds| ==> |cmds[i]| > 0 && NonResetting(cmds[i])
    ensures var m := multiset(cmds);
      Serve(pos, cmds).position.Get(a)
        == pos.Get(a) + JogStep * (m[Name(Jog(a, true))] as int - m[Name(Jog(a, false))] as int)
    decreases cmds
  {
    if |cmds| > 0 {
      var cmd, rest := cmds[0], cmds[1..];
      var p := Step(pos, cmd).0;
      LoopStep(Step, pos, cmds);
      StepMoves(pos, cmd, a);
      NetJogDisplacement(p, rest, a);
      JogDeltaCounts(cmd, a);
      assert cmds == [cmd] + rest;
      CountPrepend(cmd, rest, Name(Jog(a, true)));
      CountPrepend(cmd, rest, Name(Jog(a, false)));
    }
  }

  /** A jog delta is one step per matching "+" name minus one per matching "-" name. */
  lemma JogDeltaCounts(cmd: string, a: Axis)
    ensures JogDelta(cmd, a) == JogStep * ((if cmd == Name(Jog(a, true)) then 1 else 0)
                                         - (if cmd == Name(Jog(a, false)) then 1 else 0))
  {
    NameInjective(Jog(a, true), Jog(a, false));
  }

  /** Prepending an element adds one occurrence of it and no other. */
  lemma CountPrepend<T>(x: T, xs: seq<T>, y: T)
    ensures multiset([x] + xs)[y] == multiset(xs)[y] + (if x == y then 1 else 0)
  {
    assert multiset([x] + xs) == multiset([x]) + multiset(xs);
  }
}
