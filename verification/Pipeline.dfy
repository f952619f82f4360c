/** What a pipeline means (src/shell.c:29-61, 133-148, 291-403): its stages one after the
    other, each an arbitrary deterministic command over sh_getc and sh_putc. */
module Pipeline {
  import opened Arithmetic
  import opened Strings
  import opened Lexer
  import Console
  import Keys = Keyboard

  datatype Option<+T> = None | Some(value: T)

  /** What a command does next. `Work` is anything it does to the file system; `clear` and
      `about` drive the screen themselves. */
  datatype Action<!W, !S> =
    | Getc(next: int -> S)
    | Putc(c: char, rest: S)
    | ClearScreen(rest: S)
    | SetColor(fg: nat, bg: nat, rest: S)
    | Work(work: W -> (W, S))
    | Exit(code: int)

  datatype Entry<+F> = Missing | Directory | File(id: F)

  /** The commands, the file system with state W, and the keys that will be struck. */
  datatype System<!W, !S> = System(
    command: seq<string> -> Option<S>,
    step: S -> Action<W, S>,
    resolve: (W, string) -> Entry<nat>,
    mkfile: (W, string) -> (W, bool),
    truncate: (W, nat) -> W,
    append: (W, nat, char) -> W,
    data: (W, nat) -> string,
    keys: nat -> int
  )

  /** The files, what happened to the screen, what was written to the serial port, and how
      many keys have been read. */
  datatype World<W> = World(files: W, screen: seq<Console.Event>, serial: string, keysRead: nat)

  /** A running stage: how far it has read its input and what it has sent to the pipe. */
  datatype Env<W> = Env(world: World<W>, off: nat, sent: string)

  datatype Source = Keyboard | Bytes(text: string) | FromFile(file: nat)
  datatype Sink = ToScreen | ToPipe | ToFile(file: nat)

  // ----- one character

  function KeyValue(key: int): int {
    if key == Keys.KB_CTRL_D || key < 0 || key == Keys.KB_CTRL_C then -1 else key
  }

  function ReadText(text: string, off: nat): int {
    if off >= |text| then -1 else text[off] as int
  }

  function NextOff(text: string, off: nat): nat {
    if off >= |text| then off else off + 1
  }

  function Got<W, S>(sys: System<W, S>, src: Source, env: Env<W>): int {
    match src
    case Keyboard => KeyValue(sys.keys(env.world.keysRead))
    case Bytes(text) => ReadText(text, env.off)
    case FromFile(file) => ReadText(sys.data(env.world.files, file), env.off)
  }

  function AfterGet<W, S>(sys: System<W, S>, src: Source, env: Env<W>): Env<W> {
    match src
    case Keyboard => env.(world := env.world.(keysRead := env.world.keysRead + 1))
    case Bytes(text) => env.(off := NextOff(text, env.off))
    case FromFile(file) => env.(off := NextOff(sys.data(env.world.files, file), env.off))
  }

  /** The byte that a char holds. */
  function Byte(c: char): Console.Byte {
    (c as int % 256) as char
  }

  function Typed(text: string): (events: seq<Console.Event>)
    ensures |events| == |text|
  {
    seq(|text|, i requires 0 <= i < |text| => Console.Char(Byte(text[i])))
  }

  function Draw<W>(event: Console.Event, env: Env<W>): Env<W> {
    env.(world := env.world.(screen := env.world.screen + [event]))
  }

  function Put<W, S>(sys: System<W, S>, sink: Sink, c: char, env: Env<W>): Env<W> {
    match sink
    case ToScreen => Draw(Console.Char(Byte(c)), env.(world := env.world.(serial := env.world.serial + [c])))
    case ToPipe => env.(sent := env.sent + [c])
    case ToFile(file) => env.(world := env.world.(files := sys.append(env.world.files, file, c)))
  }

  function PutFrom<W, S>(sys: System<W, S>, sink: Sink, text: string, i: nat, env: Env<W>): Env<W>
    requires i <= |text|
    decreases |text| - i
  {
    if i == |text| then env else PutFrom(sys, sink, text, i + 1, Put(sys, sink, text[i], env))
  }

  function PutAll<W, S>(sys: System<W, S>, sink: Sink, text: string, env: Env<W>): Env<W> {
    PutFrom(sys, sink, text, 0, env)
  }

  // ----- one command

  datatype Ended<W> = Ended(code: int, env: Env<W>)

  datatype Moved<W, S> = Over(code: int) | On(state: S, env: Env<W>)

  function WithFiles<W>(env: Env<W>, files: W): Env<W> {
    env.(world := env.world.(files := files))
  }

  /** One step of a command. */
  function Move<W, S>(sys: System<W, S>, s: S, src: Source, sink: Sink, env: Env<W>): Moved<W, S> {
    match sys.step(s)
    case Exit(code) => Over(code)
    case Getc(next) => On(next(Got(sys, src, env)), AfterGet(sys, src, env))
    case Putc(c, rest) => On(rest, Put(sys, sink, c, env))
    case ClearScreen(rest) => On(rest, Draw(Console.Clear, env))
    case SetColor(fg, bg, rest) => On(rest, Draw(Console.Color(fg, bg), env))
    case Work(work) =>
      var (files, rest) := work(env.world.files);
      On(rest, WithFiles(env, files))
  }

  /** Runs a command until it exits, if `fuel` steps are enough. */
  function Run<W, S>(sys: System<W, S>, s: S, src: Source, sink: Sink, env: Env<W>, fuel: nat): Option<Ended<W>>
    decreases fuel
  {
    if fuel == 0 then None
    else
      match Move(sys, s, src, sink, env)
      case Over(code) => Some(Ended(code, env))
      case On(rest, after) => Run(sys, rest, src, sink, after, fuel - 1)
  }

  // ----- redirections

  /** The file a redirection asks for, if it does, or the complaint about it. */
  datatype Opened<W> = Opened(files: W, file: Option<nat>) | Refused(files: W, complaint: string)

  function CannotCreate(name: string): string {
    "shell: cannot create " + name + "\n"
  }

  function NotAFile(name: string): string {
    "shell: " + name + ": not a file\n"
  }

  function NoSuchFile(name: string): string {
    "shell: " + name + ": no such file\n"
  }

  function NotFound(name: string): string {
    name + ": command not found\n"
  }

  /** A missing file is created. */
  function Created<W, S>(sys: System<W, S>, files: W, name: string): (W, bool) {
    if sys.resolve(files, name) == Missing then sys.mkfile(files, name) else (files, true)
  }

  function OpenOut<W, S>(sys: System<W, S>, files: W, out: Output): Opened<W> {
    match out
    case NoOutput => Opened(files, None)
    case Output(name, append) =>
      var (made, ok) := Created(sys, files, name);
      if !ok then Refused(made, CannotCreate(name))
      else
        match sys.resolve(made, name)
        case File(id) => Opened(if append then made else sys.truncate(made, id), Some(id))
        case _ => Refused(made, NotAFile(name))
  }

  function OpenIn<W, S>(sys: System<W, S>, files: W, inp: Input): Opened<W> {
    match inp
    case NoInput => Opened(files, None)
    case Input(name) =>
      match sys.resolve(files, name)
      case File(id) => Opened(files, Some(id))
      case _ => Refused(files, NoSuchFile(name))
  }

  function SinkOf(out: Option<nat>, piped: bool): Sink {
    match out
    case Some(file) => ToFile(file)
    case None => if piped then ToPipe else ToScreen
  }

  function SourceOf(inp: Option<nat>, input: Source): Source {
    match inp
    case Some(file) => FromFile(file)
    case None => input
  }

  // ----- one stage

  function RunWords<W, S>(sys: System<W, S>, words: seq<string>, src: Source, sink: Sink, env: Env<W>,
      fuel: nat): Option<Ended<W>>
    requires words != []
  {
    match sys.command(words)
    case None => Some(Ended(127, PutAll(sys, sink, NotFound(words[0]), env)))
    case Some(s) => Run(sys, s, src, sink, env, fuel)
  }

  /** What is left of a stage when its output is settled. */
  function StageWithOutput<W, S>(sys: System<W, S>, cl: Cmdline, input: Source, sink: Sink, env: Env<W>,
      fuel: nat): Option<Ended<W>>
    requires cl.items != []
  {
    match OpenIn(sys, env.world.files, cl.inp)
    case Refused(_, complaint) => Some(Ended(1, PutAll(sys, sink, complaint, env)))
    case Opened(_, file) => RunWords(sys, cl.items, SourceOf(file, input), sink, env, fuel)
  }

  function Stage<W, S>(sys: System<W, S>, cl: Cmdline, input: Source, piped: bool, world: World<W>,
      fuel: nat): Option<Ended<W>>
  {
    var env := Env(world, 0, "");
    if cl.items == [] then Some(Ended(0, env))
    else
      match OpenOut(sys, world.files, cl.out)
      case Refused(files, complaint) =>
        Some(Ended(1, PutAll(sys, SinkOf(None, piped), complaint, WithFiles(env, files))))
      case Opened(files, file) => StageWithOutput(sys, cl, input, SinkOf(file, piped), WithFiles(env, files), fuel)
  }

  // ----- the whole pipeline

  /** The next bar, quoted or not, or the end. */
  function BarAt(s: string, p: nat): (e: nat)
    requires p <= |s|
    ensures p <= e <= |s| && (e < |s| ==> s[e] == '|') && '|' !in s[p..e]
    decreases |s| - p
  {
    if p == |s| || s[p] == '|' then p else BarAt(s, p + 1)
  }

  /** The command lines between the bars. */
  function Segments(s: string, i: nat, status: nat): (cls: seq<Cmdline>)
    requires i <= |s|
    ensures cls != []
    decreases |s| - i
  {
    var e := BarAt(s, i);
    var cl := Lex(s[..e], status, i, EMPTY);
    if e == |s| then [cl] else [cl] + Segments(s, SkipBlanks(s, e + 1), status)
  }

  /** args_t has room for 31 words and the null behind them. */
  const MAX_ARGS: nat := 32

  /** A segment can be tokenized in place and has room in argv. */
  predicate SegmentFits(s: string, i: nat, status: nat)
    requires i <= |s|
  {
    LineFits(s, status, i, 0) && |Lex(s, status, i, EMPTY).items| < MAX_ARGS
  }

  ghost predicate SegmentsOk(s: string, i: nat, status: nat)
    requires i <= |s|
    decreases |s| - i
  {
    var e := BarAt(s, i);
    SegmentFits(s[..e], i, status) && (e < |s| ==> SegmentsOk(s, SkipBlanks(s, e + 1), status))
  }

  datatype Result<W> = Result(code: int, world: World<W>)

  /** Every stage reads what the one before it sent, cut to the size of the pipe. */
  function Compose<W, S>(sys: System<W, S>, stages: seq<Cmdline>, input: Source, world: World<W>,
      fuel: nat): Option<Result<W>>
    requires stages != []
    decreases |stages|
  {
    match Stage(sys, stages[0], input, |stages| > 1, world, fuel)
    case None => None
    case Some(end) =>
      if |stages| == 1 then Some(Result(end.code, end.env.world))
      else Compose(sys, stages[1..], Bytes(ThroughPipe(end.env.sent)), end.env.world, fuel)
  }

  /** All commands exit, up to the first segment that does not fit. */
  ghost predicate CommandsExit<W, S>(sys: System<W, S>, s: string, i: nat, status: nat, input: Source,
      world: World<W>, fuel: nat)
    requires i <= |s|
    decreases |s| - i
  {
    var e := BarAt(s, i);
    var stage := Stage(sys, Lex(s[..e], status, i, EMPTY), input, e < |s|, world, fuel);
    SegmentFits(s[..e], i, status) ==>
      && stage.Some?
      && (e < |s| ==>
          var passed := Bytes(ThroughPipe(stage.value.env.sent));
          CommandsExit(sys, s, SkipBlanks(s, e + 1), status, passed, stage.value.env.world, fuel))
  }

  /** When all segments fit, that is all that a pipeline needs to end. */
  lemma {:induction false} ExitIsCompose<W, S>(sys: System<W, S>, s: string, i: nat, status: nat, input: Source,
      world: World<W>, fuel: nat)
    requires i <= |s| && SegmentsOk(s, i, status)
    ensures CommandsExit(sys, s, i, status, input, world, fuel)
      <==> Compose(sys, Segments(s, i, status), input, world, fuel).Some?
    decreases |s| - i
  {
    hide Stage, Lex, SkipBlanks, SegmentFits;
    var e := BarAt(s, i);
    var stage := Stage(sys, Lex(s[..e], status, i, EMPTY), input, e < |s|, world, fuel);
    ComposeSegments(sys, s, i, status, input, world, fuel);
    if e < |s| && stage.Some? {
      var passed := Bytes(ThroughPipe(stage.value.env.sent));
      ExitIsCompose(sys, s, SkipBlanks(s, e + 1), status, passed, stage.value.env.world, fuel);
    }
  }

  /** The pipeline from a segment on, taken apart at its bar. */
  lemma ComposeSegments<W, S>(sys: System<W, S>, s: string, i: nat, status: nat, input: Source, world: World<W>,
      fuel: nat)
    requires i <= |s|
    ensures var e := BarAt(s, i); var stage := Stage(sys, Lex(s[..e], status, i, EMPTY), input, e < |s|, world, fuel);
      Compose(sys, Segments(s, i, status), input, world, fuel) ==
        match stage
        case None => None
        case Some(end) =>
          if e == |s| then Some(Result(end.code, end.env.world))
          else
            var passed := Bytes(ThroughPipe(end.env.sent));
            Compose(sys, Segments(s, SkipBlanks(s, e + 1), status), passed, end.env.world, fuel)
  {
    hide Stage, Lex, SkipBlanks;
    var e := BarAt(s, i);
    if e < |s| {
      var cl, rest := Lex(s[..e], status, i, EMPTY), Segments(s, SkipBlanks(s, e + 1), status);
      assert Segments(s, i, status) == [cl] + rest && ([cl] + rest)[1..] == rest;
    }
  }

  /** The stages in front of a bar, with what the last of them passes on. */
  function Capture<W, S>(sys: System<W, S>, stages: seq<Cmdline>, input: Source, world: World<W>,
      fuel: nat): Option<Ended<W>>
    requires stages != []
    decreases |stages|
  {
    match Stage(sys, stages[0], input, true, world, fuel)
    case None => None
    case Some(end) =>
      if |stages| == 1 then Some(end)
      else Capture(sys, stages[1..], Bytes(ThroughPipe(end.env.sent)), end.env.world, fuel)
  }

  /** A pipeline can be cut at any bar: what stands in front runs first, with its output
      captured, and what stands behind runs on the first 64 KiB of that. */
  lemma {:induction false} CutAnywhere<W, S>(sys: System<W, S>, front: seq<Cmdline>, back: seq<Cmdline>,
      input: Source, world: World<W>, fuel: nat)
    requires front != [] && back != []
    ensures Compose(sys, front + back, input, world, fuel) ==
      match Capture(sys, front, input, world, fuel)
      case None => None
      case Some(end) => Compose(sys, back, Bytes(ThroughPipe(end.env.sent)), end.env.world, fuel)
    decreases |front|
  {
    var stages := front + back;
    assert stages[1..] == front[1..] + back;
    if |front| > 1 {
      match Stage(sys, front[0], input, true, world, fuel) {
        case None =>
        case Some(end) =>
          CutAnywhere(sys, front[1..], back, Bytes(ThroughPipe(end.env.sent)), end.env.world, fuel);
      }
    } else {
      assert front[1..] + back == back;
    }
  }

  // ----- what a stage leaves alone

  /** Nothing but clearing and colours. */
  ghost predicate Unwritten(before: seq<Console.Event>, after: seq<Console.Event>) {
    before <= after && forall i :: |before| <= i < |after| ==> !after[i].Char?
  }

  /** The screen is written only by a stage that writes to it, the pipe only by one that
      writes there, and the keyboard is read only by a stage that reads from it. Clearing
      and colours reach the screen from everywhere. */
  ghost predicate Confined<W>(src: Source, sink: Sink, before: Env<W>, after: Env<W>) {
    && (sink != ToScreen ==>
        Unwritten(before.world.screen, after.world.screen) && after.world.serial == before.world.serial)
    && (sink != ToPipe ==> after.sent == before.sent)
    && (src != Keyboard ==> after.world.keysRead == before.world.keysRead)
    && before.world.screen <= after.world.screen && before.sent <= after.sent
    && before.world.serial <= after.world.serial
  }

  lemma MoveConfined<W, S>(sys: System<W, S>, s: S, src: Source, sink: Sink, env: Env<W>)
    requires Move(sys, s, src, sink, env).On?
    ensures Confined(src, sink, env, Move(sys, s, src, sink, env).env)
  {
  }

  lemma ConfinedChain<W>(src: Source, sink: Sink, a: Env<W>, b: Env<W>, c: Env<W>)
    requires Confined(src, sink, a, b) && Confined(src, sink, b, c)
    ensures Confined(src, sink, a, c)
  {
  }

  lemma {:induction false} RunConfined<W, S>(sys: System<W, S>, s: S, src: Source, sink: Sink, env: Env<W>, fuel: nat)
    requires Run(sys, s, src, sink, env, fuel).Some?
    ensures Confined(src, sink, env, Run(sys, s, src, sink, env, fuel).value.env)
    decreases fuel
  {
    match Move(sys, s, src, sink, env) {
      case Over(_) =>
      case On(rest, after) =>
        MoveConfined(sys, s, src, sink, env);
        RunConfined(sys, rest, src, sink, after, fuel - 1);
        ConfinedChain(src, sink, env, after, Run(sys, rest, src, sink, after, fuel - 1).value.env);
    }
  }

  lemma {:induction false} PutConfined<W, S>(sys: System<W, S>, src: Source, sink: Sink, text: string, i: nat,
      env: Env<W>)
    requires i <= |text|
    ensures Confined(src, sink, env, PutFrom(sys, sink, text, i, env))
    ensures PutFrom(sys, sink, text, i, env).world.keysRead == env.world.keysRead
    decreases |text| - i
  {
    if i < |text| {
      var after := Put(sys, sink, text[i], env);
      PutConfined(sys, src, sink, text, i + 1, after);
      ConfinedChain(src, sink, env, after, PutFrom(sys, sink, text, i + 1, after));
    }
  }

  lemma StageWithOutputConfined<W, S>(sys: System<W, S>, cl: Cmdline, input: Source, sink: Sink, env: Env<W>, fuel: nat)
    requires cl.items != [] && StageWithOutput(sys, cl, input, sink, env, fuel).Some?
    ensures Confined(input, sink, env, StageWithOutput(sys, cl, input, sink, env, fuel).value.env)
  {
    match OpenIn(sys, env.world.files, cl.inp) {
      case Refused(_, complaint) => PutConfined(sys, input, sink, complaint, 0, env);
      case Opened(_, file) =>
        var src := SourceOf(file, input);
        match sys.command(cl.items) {
          case None => PutConfined(sys, src, sink, NotFound(cl.items[0]), 0, env);
          case Some(s) => RunConfined(sys, s, src, sink, env, fuel);
        }
    }
  }

  /** In front of a bar nothing is written on the screen; behind one nothing reads the
      keyboard; and a stage whose output goes to a file sends nothing. */
  lemma StageConfined<W, S>(sys: System<W, S>, cl: Cmdline, input: Source, piped: bool, world: World<W>, fuel: nat)
    requires Stage(sys, cl, input, piped, world, fuel).Some?
    ensures var end := Stage(sys, cl, input, piped, world, fuel).value.env;
      && (piped ==> Unwritten(world.screen, end.world.screen) && end.world.serial == world.serial)
      && (!piped ==> end.sent == "")
      && (input != Keyboard ==> end.world.keysRead == world.keysRead)
      && (cl.items != [] && cl.out.Output? && OpenOut(sys, world.files, cl.out).Opened? ==>
          end.sent == "" && Unwritten(world.screen, end.world.screen) && end.world.serial == world.serial)
  {
    if cl.items != [] {
      var env := Env(world, 0, "");
      match OpenOut(sys, world.files, cl.out) {
        case Refused(files, complaint) =>
          PutConfined(sys, input, SinkOf(None, piped), complaint, 0, WithFiles(env, files));
        case Opened(files, file) =>
          StageWithOutputConfined(sys, cl, input, SinkOf(file, piped), WithFiles(env, files), fuel);
      }
    }
  }

  /** In a whole pipeline only the last stage writes on the screen, and none behind a bar
      reads the keyboard. */
  lemma {:induction false} CaptureConfined<W, S>(sys: System<W, S>, stages: seq<Cmdline>, input: Source,
      world: World<W>, fuel: nat)
    requires stages != [] && Capture(sys, stages, input, world, fuel).Some?
    ensures var end := Capture(sys, stages, input, world, fuel).value.env;
      && Unwritten(world.screen, end.world.screen) && end.world.serial == world.serial
      && (input != Keyboard ==> end.world.keysRead == world.keysRead)
    decreases |stages|
  {
    StageConfined(sys, stages[0], input, true, world, fuel);
    if |stages| > 1 {
      var end := Stage(sys, stages[0], input, true, world, fuel).value.env;
      CaptureConfined(sys, stages[1..], Bytes(ThroughPipe(end.sent)), end.world, fuel);
    }
  }

  // ----- fuel does not matter

  lemma {:induction false} RunMoreFuel<W, S>(sys: System<W, S>, s: S, src: Source, sink: Sink, env: Env<W>,
      fuel: nat, more: nat)
    requires Run(sys, s, src, sink, env, fuel).Some? && fuel <= more
    ensures Run(sys, s, src, sink, env, more) == Run(sys, s, src, sink, env, fuel)
    decreases fuel
  {
    var moved := Move(sys, s, src, sink, env);
    if moved.On? {
      RunMoreFuel(sys, moved.state, src, sink, moved.env, fuel - 1, more - 1);
    }
  }

  lemma StageMoreFuel<W, S>(sys: System<W, S>, cl: Cmdline, input: Source, piped: bool, world: World<W>, fuel: nat,
      more: nat)
    requires Stage(sys, cl, input, piped, world, fuel).Some? && fuel <= more
    ensures Stage(sys, cl, input, piped, world, more) == Stage(sys, cl, input, piped, world, fuel)
  {
    var out := OpenOut(sys, world.files, cl.out);
    if cl.items != [] && out.Opened? {
      var inp, command := OpenIn(sys, out.files, cl.inp), sys.command(cl.items);
      if inp.Opened? && command.Some? {
        RunMoreFuel(sys, command.value, SourceOf(inp.file, input), SinkOf(out.file, piped),
                    WithFiles(Env(world, 0, ""), out.files), fuel, more);
      }
    }
  }

  /** The outcome of a pipeline whose commands all exit does not depend on the bound. */
  lemma {:induction false} MoreFuel<W, S>(sys: System<W, S>, stages: seq<Cmdline>, input: Source, world: World<W>,
      fuel: nat, more: nat)
    requires stages != [] && Compose(sys, stages, input, world, fuel).Some? && fuel <= more
    ensures Compose(sys, stages, input, world, more) == Compose(sys, stages, input, world, fuel)
    decreases |stages|
  {
    StageMoreFuel(sys, stages[0], input, |stages| > 1, world, fuel, more);
    if |stages| > 1 {
      var end := Stage(sys, stages[0], input, true, world, fuel).value.env;
      MoreFuel(sys, stages[1..], Bytes(ThroughPipe(end.sent)), end.world, fuel, more);
    }
  }

  // ----- the exit code

  ghost predicate Linked<W(!new), S(!new)>(sys: System<W, S>, src: Source, sink: Sink, from: (S, Env<W>),
      to: (S, Env<W>))
  {
    Move(sys, from.0, src, sink, from.1) == On(to.0, to.1)
  }

  /** The states and surroundings that a command goes through, step by step. */
  ghost predicate Steps<W(!new), S(!new)>(sys: System<W, S>, src: Source, sink: Sink, run: seq<(S, Env<W>)>) {
    forall i {:trigger run[i]} :: 0 <= i < |run| - 1 ==> Linked(sys, src, sink, run[i], run[i + 1])
  }

  lemma StepsRest<W(!new), S(!new)>(sys: System<W, S>, src: Source, sink: Sink, run: seq<(S, Env<W>)>)
    requires |run| > 1 && Steps(sys, src, sink, run)
    ensures Steps(sys, src, sink, run[1..]) && Linked(sys, src, sink, run[0], run[1])
  {
    hide Linked;
    var rest := run[1..];
    forall i {:trigger rest[i]} | 0 <= i < |rest| - 1
      ensures Linked(sys, src, sink, rest[i], rest[i + 1])
    {
      assert rest[i] == run[i + 1] && rest[i + 1] == run[(i + 1) + 1];
    }
  }

  /** A command that comes to an exit in these steps ends with just that code. */
  lemma {:induction false} StepsToExit<W(!new), S(!new)>(sys: System<W, S>, src: Source, sink: Sink,
      run: seq<(S, Env<W>)>, code: int, fuel: nat)
    requires run != [] && Steps(sys, src, sink, run) && sys.step(run[|run| - 1].0) == Exit(code) && fuel >= |run|
    ensures Run(sys, run[0].0, src, sink, run[0].1, fuel) == Some(Ended(code, run[|run| - 1].1))
    decreases |run|
  {
    if |run| > 1 {
      StepsRest(sys, src, sink, run);
      StepsToExit(sys, src, sink, run[1..], code, fuel - 1);
    }
  }

  /** These steps lead from here to an exit with this code and these surroundings. */
  ghost predicate ComesTo<W(!new), S(!new)>(sys: System<W, S>, src: Source, sink: Sink, run: seq<(S, Env<W>)>, s: S,
      env: Env<W>, end: Ended<W>)
  {
    && run != [] && run[0] == (s, env) && Steps(sys, src, sink, run)
    && sys.step(run[|run| - 1].0) == Exit(end.code) && run[|run| - 1].1 == end.env
  }

  /** And every command that ends has come to its exit in such steps. */
  lemma {:induction false} EndsInExit<W(!new), S(!new)>(sys: System<W, S>, s: S, src: Source, sink: Sink, env: Env<W>,
      fuel: nat) returns (run: seq<(S, Env<W>)>)
    requires Run(sys, s, src, sink, env, fuel).Some?
    ensures |run| <= fuel && ComesTo(sys, src, sink, run, s, env, Run(sys, s, src, sink, env, fuel).value)
    decreases fuel
  {
    hide Move, Steps, ComesTo;
    match Move(sys, s, src, sink, env) {
      case Over(code) =>
        ExitsAtOnce(sys, src, sink, s, env, code);
        run := [(s, env)];
      case On(next, after) =>
        var rest := EndsInExit(sys, next, src, sink, after, fuel - 1);
        OneStepMore(sys, src, sink, s, env, next, after, rest, Run(sys, next, src, sink, after, fuel - 1).value);
        run := [(s, env)] + rest;
    }
  }

  lemma ExitsAtOnce<W(!new), S(!new)>(sys: System<W, S>, src: Source, sink: Sink, s: S, env: Env<W>, code: int)
    requires Move(sys, s, src, sink, env) == Over(code)
    ensures ComesTo(sys, src, sink, [(s, env)], s, env, Ended(code, env))
  {
  }

  lemma OneStepMore<W(!new), S(!new)>(sys: System<W, S>, src: Source, sink: Sink, s: S, env: Env<W>, next: S,
      after: Env<W>, rest: seq<(S, Env<W>)>, end: Ended<W>)
    requires ComesTo(sys, src, sink, rest, next, after, end) && Move(sys, s, src, sink, env) == On(next, after)
    ensures ComesTo(sys, src, sink, [(s, env)] + rest, s, env, end)
  {
    var run := [(s, env)] + rest;
    assert Linked(sys, src, sink, (s, env), rest[0]);
    hide Linked, Move;
    assert run[1..] == rest;
    forall i {:trigger run[i]} | 0 <= i < |run| - 1
      ensures Linked(sys, src, sink, run[i], run[i + 1])
    {
      assert run[i + 1] == rest[i];
      if i > 0 {
        assert run[i] == rest[i - 1] && run[i + 1] == rest[(i - 1) + 1];
      }
    }
  }

  /** The characters written in these steps. */
  function Wrote<W, S>(sys: System<W, S>, run: seq<(S, Env<W>)>): string {
    if |run| <= 1 then ""
    else
      (match sys.step(run[0].0)
       case Putc(c, _) => [c]
       case _ => "")
      + Wrote(sys, run[1..])
  }

  /** Everything written in front of a bar is sent, in order; what is written to the screen
      also goes out of the serial port. */
  lemma {:induction false} OutputIs<W(!new), S(!new)>(sys: System<W, S>, src: Source, sink: Sink,
      run: seq<(S, Env<W>)>)
    requires run != [] && Steps(sys, src, sink, run)
    ensures var first, last := run[0].1, run[|run| - 1].1;
      && (sink == ToPipe ==> last.sent == first.sent + Wrote(sys, run))
      && (sink == ToScreen ==> last.world.serial == first.world.serial + Wrote(sys, run))
    decreases |run|
  {
    var first, rest := run[0].1, run[1..];
    if |run| == 1 {
      PlusNothing(first.sent);
      PlusNothing(first.world.serial);
    } else {
      StepsRest(sys, src, sink, run);
      OutputIs(sys, src, sink, rest);
      StepWrites(sys, src, sink, run[0], run[1]);
      var now := match sys.step(run[0].0) case Putc(c, _) => [c] case _ => "";
      Associative(first.sent, now, Wrote(sys, rest));
      Associative(first.world.serial, now, Wrote(sys, rest));
    }
  }

  lemma StepWrites<W(!new), S(!new)>(sys: System<W, S>, src: Source, sink: Sink, a: (S, Env<W>), b: (S, Env<W>))
    requires Linked(sys, src, sink, a, b)
    ensures var now := match sys.step(a.0) case Putc(c, _) => [c] case _ => "";
      && (sink == ToPipe ==> b.1.sent == a.1.sent + now)
      && (sink == ToScreen ==> b.1.world.serial == a.1.world.serial + now)
  {
    PlusNothing(a.1.sent);
    PlusNothing(a.1.world.serial);
  }

  /** What the last stage of a pipeline starts from. */
  function LastInput<W, S>(sys: System<W, S>, front: seq<Cmdline>, input: Source, world: World<W>, fuel: nat):
      Option<(Source, World<W>)>
  {
    if front == [] then Some((input, world))
    else
      match Capture(sys, front, input, world, fuel)
      case None => None
      case Some(end) => Some((Bytes(ThroughPipe(end.env.sent)), end.env.world))
  }

  /** The outcome of a pipeline is that of its last stage. */
  lemma LastStage<W, S>(sys: System<W, S>, front: seq<Cmdline>, last: Cmdline, input: Source, world: World<W>,
      fuel: nat)
    requires Compose(sys, front + [last], input, world, fuel).Some?
    ensures LastInput(sys, front, input, world, fuel).Some?
    ensures
      var (src, before) := LastInput(sys, front, input, world, fuel).value;
      var stage := Stage(sys, last, src, false, before, fuel);
      && stage.Some?
      && Compose(sys, front + [last], input, world, fuel)
          == Some(Result(stage.value.code, stage.value.env.world))
  {
    if front == [] {
      assert front + [last] == [last];
    } else {
      CutAnywhere(sys, front, [last], input, world, fuel);
    }
  }

  /** The output cannot be opened: its name leads to a directory, or it is missing and no
      file can be made there. */
  lemma OutputRefused<W, S>(sys: System<W, S>, files: W, name: string, append: bool)
    ensures OpenOut(sys, files, Output(name, append)).Refused? <==>
      var (made, ok) := sys.mkfile(files, name);
      || sys.resolve(files, name) == Directory
      || (sys.resolve(files, name) == Missing && (!ok || !sys.resolve(made, name).File?))
  {
    var (made, ok) := Created(sys, files, name);
    match sys.resolve(files, name) {
      case Missing => assert sys.mkfile(files, name) == (made, ok);
      case _ => assert made == files && ok;
    }
  }

  /** The code of a pipeline, by what its last command line asks for: 0 for an empty one, 1
      for a redirection that cannot be opened, 127 for an unknown command. In these cases
      no command runs in the last stage, so that nothing more is read from the keyboard. */
  lemma LastCode<W, S>(sys: System<W, S>, front: seq<Cmdline>, last: Cmdline, input: Source, world: World<W>, fuel: nat)
    requires Compose(sys, front + [last], input, world, fuel).Some?
    ensures LastInput(sys, front, input, world, fuel).Some?
    ensures
      var (_, before) := LastInput(sys, front, input, world, fuel).value;
      var result := Compose(sys, front + [last], input, world, fuel).value;
      var o := OpenOut(sys, before.files, last.out);
      && (last.items == [] ==> result == Result(0, before))
      && (last.items != [] && o.Refused? ==> result.code == 1)
      && (last.items != [] && o.Opened? && last.inp.Input? && !sys.resolve(o.files, last.inp.name).File? ==>
          result.code == 1)
      && (last.items != [] && o.Opened? && OpenIn(sys, o.files, last.inp).Opened? && sys.command(last.items) == None ==>
          result.code == 127)
      && (o.Refused? || OpenIn(sys, o.files, last.inp).Refused? || sys.command(last.items) == None ==>
          result.world.keysRead == before.keysRead)
  {
    LastStage(sys, front, last, input, world, fuel);
    var (src, before) := LastInput(sys, front, input, world, fuel).value;
    var o := OpenOut(sys, before.files, last.out);
    if last.items != [] {
      var env := Env(before, 0, "");
      match o {
        case Refused(files, complaint) => PutConfined(sys, src, ToScreen, complaint, 0, WithFiles(env, files));
        case Opened(files, file) =>
          var sink := SinkOf(file, false);
          match OpenIn(sys, files, last.inp) {
            case Refused(_, complaint) => PutConfined(sys, src, sink, complaint, 0, WithFiles(env, files));
            case Opened(_, _) =>
              if sys.command(last.items) == None {
                PutConfined(sys, src, sink, NotFound(last.items[0]), 0, WithFiles(env, files));
              }
          }
      }
    }
  }

  /** When the command of the last stage comes to an exit, the pipeline ends with its code
      and leaves the world of that moment. */
  lemma LastExit<W(!new), S(!new)>(sys: System<W, S>, front: seq<Cmdline>, last: Cmdline, input: Source,
      world: World<W>, fuel: nat, run: seq<(S, Env<W>)>, code: int)
    requires Compose(sys, front + [last], input, world, fuel).Some? && last.items != []
    requires LastInput(sys, front, input, world, fuel).Some?
    requires
      var (src, before) := LastInput(sys, front, input, world, fuel).value;
      var o := OpenOut(sys, before.files, last.out);
      && o.Opened? && OpenIn(sys, o.files, last.inp).Opened?
      && run != [] && sys.command(last.items) == Some(run[0].0)
      && run[0].1 == WithFiles(Env(before, 0, ""), o.files)
      && Steps(sys, SourceOf(OpenIn(sys, o.files, last.inp).file, src), SinkOf(o.file, false), run)
    requires sys.step(run[|run| - 1].0) == Exit(code) && fuel >= |run|
    ensures Compose(sys, front + [last], input, world, fuel) == Some(Result(code, run[|run| - 1].1.world))
  {
    LastStage(sys, front, last, input, world, fuel);
    var (src, before) := LastInput(sys, front, input, world, fuel).value;
    var o := OpenOut(sys, before.files, last.out);
    var inp := OpenIn(sys, o.files, last.inp);
    StepsToExit(sys, SourceOf(inp.file, src), SinkOf(o.file, false), run, code, fuel);
  }

  // ----- the keyboard as a source

  /** Ctrl-D and Ctrl-C are the end of the input; every other key is read as it is. */
  lemma KeyRead<W, S>(sys: System<W, S>, env: Env<W>)
    requires sys.keys(env.world.keysRead) >= 0
    ensures var key := sys.keys(env.world.keysRead);
      Got(sys, Keyboard, env) == if key == 0x108 || key == 0x109 then -1 else key
    ensures AfterGet(sys, Keyboard, env).world.keysRead == env.world.keysRead + 1
  {
  }

  /** A letter key is read as the letter on it, by Shift, and as the end of the input when
      Ctrl is held down with D or C. */
  lemma LetterRead<W, S>(sys: System<W, S>, env: Env<W>, row: nat, k: nat, shift: bool, ctrl: bool)
    requires row < 3 && k < |Keys.SMALL[row]|
    requires sys.keys(env.world.keysRead) == Keys.KeyOf(Keys.FIRST_CODE[row] + k, shift, ctrl)
    ensures Got(sys, Keyboard, env)
      == if ctrl && Keys.SMALL[row][k] in {'c', 'd'} then -1 else Keys.LetterOn(row, k, shift, false)
  {
    Keys.LetterKeys(row, k, shift, ctrl);
    Keys.LettersAreKeys(row, k, shift, ctrl);
    hide Keys.KeyOf;
  }
}
