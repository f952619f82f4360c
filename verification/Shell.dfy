/** The executor of pipelines (src/shell.c:12-61, 133-148, 291-403): two buffers that swap
    places as reader and writer, under global redirection state. */
module Shell {
  import opened Strings
  import opened Lexer
  import opened Tokenizer
  import opened Pipeline
  import Console
  import Keys = Keyboard

  /** pipe_storage_t */
  class PipeStorage {
    const data: array<char>
    var len: nat

    constructor ()
      ensures fresh(data) && data.Length == PIPE_MAX && len == 0
    {
      data := new char[PIPE_MAX];
      len := 0;
    }

    ghost function Contents(): string
      requires len <= data.Length
      reads this, data
    {
      data[..len]
    }
  }

  class Shell<!W, !S> {
    const sys: System<W, S>
    const first: PipeStorage
    const second: PipeStorage

    var files: W
    var screen: seq<Console.Event>
    var serial: string
    var keysRead: nat

    var outFile: Option<nat>
    var outAppend: bool
    var inFile: Option<nat>
    var inOff: nat
    var pipeInOff: nat
    var lastExit: nat
    var pipeWriting: bool
    var pipeReader: PipeStorage?
    var pipeWriter: PipeStorage?

    ghost predicate Sound()
      reads this, first, second
    {
      && first != second && first.data != second.data
      && first.data.Length == PIPE_MAX && second.data.Length == PIPE_MAX
      && first.len <= PIPE_MAX && second.len <= PIPE_MAX
      && (pipeReader == null || pipeReader == first || pipeReader == second)
      && (pipeWriter == null || pipeWriter == first || pipeWriter == second)
    }

    /** The buffer that is read is never the one that is written. */
    ghost predicate Valid()
      reads this, first, second
    {
      Sound() && (pipeReader != null ==> pipeReader != pipeWriter)
    }

    /** No redirection and no pipe: how a pipeline leaves the shell. */
    ghost predicate Idle()
      reads this
    {
      outFile == None && inFile == None && !pipeWriting && pipeReader == null && pipeWriter == null
    }

    constructor (sys: System<W, S>, files: W)
      ensures Valid() && Idle() && this.sys == sys && this.files == files
      ensures screen == [] && serial == "" && keysRead == 0 && lastExit == 0
      ensures fresh(first) && fresh(second) && fresh(first.data) && fresh(second.data)
    {
      this.sys, this.files, screen, serial, keysRead := sys, files, [], "", 0;
      outFile, outAppend, inFile, inOff := None, false, None, 0;
      pipeInOff, lastExit, pipeWriting, pipeReader, pipeWriter := 0, 0, false, null, null;
      first := new PipeStorage();
      second := new PipeStorage();
    }

    ghost function Now(): World<W>
      reads this
    {
      World(files, screen, serial, keysRead)
    }

    /** Where the next character comes from. */
    ghost predicate Reads(src: Source, off: nat)
      requires Sound()
      reads this, first, second, first.data, second.data
    {
      match src
      case Keyboard => inFile == None && pipeReader == null
      case Bytes(text) => inFile == None && pipeReader != null && pipeReader.Contents() == text && pipeInOff == off
      case FromFile(file) => inFile == Some(file) && inOff == off
    }

    /** Where the next character goes to. */
    ghost predicate Writes(sink: Sink)
      reads this
    {
      match sink
      case ToScreen => outFile == None && !pipeWriting
      case ToPipe => outFile == None && pipeWriting && pipeWriter != null
      case ToFile(file) => outFile == Some(file)
    }

    /** The pipe holds what fits of everything sent. */
    ghost predicate Holds(sent: string)
      requires Sound()
      reads this, first, second, first.data, second.data
    {
      pipeWriter != null ==> pipeWriter.Contents() == ThroughPipe(sent)
    }

    ghost predicate At(src: Source, sink: Sink, env: Env<W>)
      reads this, first, second, first.data, second.data
    {
      Valid() && env.world == Now() && Reads(src, env.off) && Writes(sink) && Holds(env.sent)
    }

    ghost function WriterParts(): set<object>
      reads this
    {
      if pipeWriter == null then {} else {pipeWriter, pipeWriter.data}
    }

    method PipeWriterAdd(c: char, ghost sent: string)
      requires Valid() && Holds(sent)
      modifies WriterParts()
      ensures Valid() && Holds(sent + [c])
    {
      if pipeWriter == null {
        return;
      }
      if pipeWriter.len >= PIPE_MAX {
        assert ThroughPipe(sent + [c]) == ThroughPipe(sent);
        return;
      }
      pipeWriter.data[pipeWriter.len] := c;
      pipeWriter.len := pipeWriter.len + 1;
      assert ThroughPipe(sent + [c]) == ThroughPipe(sent) + [c];
    }

    method OutRaw(c: char, ghost src: Source, ghost sink: Sink, ghost env: Env<W>)
      requires At(src, sink, env)
      modifies `files, `screen, `serial, WriterParts()
      ensures At(src, sink, Put(sys, sink, c, env))
    {
      match outFile {
        case Some(file) => files := sys.append(files, file, c);
        case None =>
          if pipeWriting {
            PipeWriterAdd(c, env.sent);
          } else {
            screen := screen + [Console.Char(Byte(c))];
            serial := serial + [c];
          }
      }
    }

    method Puts(text: string, ghost src: Source, ghost sink: Sink, ghost env: Env<W>)
      requires At(src, sink, env)
      modifies `files, `screen, `serial, WriterParts()
      ensures At(src, sink, PutAll(sys, sink, text, env))
    {
      hide At, Put;
      ghost var now := env;
      for i := 0 to |text|
        invariant At(src, sink, now)
        invariant PutFrom(sys, sink, text, i, now) == PutAll(sys, sink, text, env)
      {
        OutRaw(text[i], src, sink, now);
        now := Put(sys, sink, text[i], now);
      }
    }

    method KeyboardGet() returns (key: int)
      modifies `keysRead
      ensures key == sys.keys(old(keysRead)) && keysRead == old(keysRead) + 1
    {
      key := sys.keys(keysRead);
      keysRead := keysRead + 1;
    }

    method ShGetc(ghost src: Source, ghost sink: Sink, ghost env: Env<W>) returns (c: int)
      requires At(src, sink, env)
      modifies `keysRead, `inOff, `pipeInOff
      ensures c == Got(sys, src, env) && At(src, sink, AfterGet(sys, src, env))
    {
      match inFile {
        case Some(file) =>
          var data := sys.data(files, file);
          if inOff >= |data| {
            return -1;
          }
          inOff := inOff + 1;
          return data[inOff - 1] as int;
        case None =>
      }
      if pipeReader != null {
        if pipeInOff >= pipeReader.len {
          return -1;
        }
        pipeInOff := pipeInOff + 1;
        return pipeReader.data[pipeInOff - 1] as int;
      }
      var key := KeyboardGet();
      if key == Keys.KB_CTRL_D || key < 0 {
        return -1;
      }
      if key == Keys.KB_CTRL_C {
        return -1;
      }
      return key;
    }

    /** vga_clear and vga_setcolor, whatever the redirections are */
    method DrawOn(event: Console.Event, ghost src: Source, ghost sink: Sink, ghost env: Env<W>)
      requires At(src, sink, env)
      modifies `screen
      ensures At(src, sink, Draw(event, env))
    {
      screen := screen + [event];
    }

    method RunWork(work: W -> (W, S), ghost src: Source, ghost sink: Sink, ghost env: Env<W>) returns (rest: S)
      requires At(src, sink, env)
      modifies `files
      ensures rest == work(env.world.files).1 && At(src, sink, WithFiles(env, work(env.world.files).0))
    {
      var (changed, next) := work(files);
      files, rest := changed, next;
    }

    /** Runs a command to its end. */
    method RunCommand(start: S, ghost src: Source, ghost sink: Sink, ghost env: Env<W>, ghost fuel: nat)
      returns (rc: int)
      requires At(src, sink, env) && Run(sys, start, src, sink, env, fuel).Some?
      modifies `files, `screen, `serial, `keysRead, `inOff, `pipeInOff, WriterParts()
      ensures var end := Run(sys, start, src, sink, env, fuel).value;
        rc == end.code && At(src, sink, end.env)
    {
      hide At, Got, AfterGet, Put;
      var s := start;
      ghost var now, left := env, fuel;
      while true
        invariant At(src, sink, now)
        invariant Run(sys, s, src, sink, now, left) == Run(sys, start, src, sink, env, fuel)
        decreases left
      {
        match sys.step(s) {
          case Exit(code) => return code;
          case Getc(next) =>
            var c := ShGetc(src, sink, now);
            s, now := next(c), AfterGet(sys, src, now);
          case Putc(c, rest) =>
            OutRaw(c, src, sink, now);
            s, now := rest, Put(sys, sink, c, now);
          case ClearScreen(rest) =>
            DrawOn(Console.Clear, src, sink, now);
            s, now := rest, Draw(Console.Clear, now);
          case SetColor(fg, bg, rest) =>
            DrawOn(Console.Color(fg, bg), src, sink, now);
            s, now := rest, Draw(Console.Color(fg, bg), now);
          case Work(work) =>
            s := RunWork(work, src, sink, now);
            now := WithFiles(now, work(now.world.files).0);
        }
        left := left - 1;
      }
    }

    // ----- redirections

    /** The redirection of apply_redirs to a file; false when it has complained. */
    method OpenOutput(out: Output, ghost input: Source, ghost piped: bool, ghost env: Env<W>) returns (ok: bool)
      requires At(input, SinkOf(None, piped), env)
      modifies `files, `screen, `serial, `outFile, `outAppend, WriterParts()
      ensures match OpenOut(sys, old(files), out)
        case Opened(now, file) => ok && At(input, SinkOf(file, piped), WithFiles(env, now))
        case Refused(now, complaint) =>
          !ok && At(input, SinkOf(None, piped), PutAll(sys, SinkOf(None, piped), complaint, WithFiles(env, now)))
    {
      if out == NoOutput {
        return true;
      }
      ok := CreateMissing(out.name, input, SinkOf(None, piped), env);
      if !ok {
        Puts(CannotCreate(out.name), input, SinkOf(None, piped), WithFiles(env, files));
        return false;
      }
      ok := OpenFile(out.name, out.append, input, piped, WithFiles(env, files));
    }

    method OpenFile(name: string, append: bool, ghost input: Source, ghost piped: bool, ghost env: Env<W>)
      returns (ok: bool)
      requires At(input, SinkOf(None, piped), env)
      modifies `files, `screen, `serial, `outFile, `outAppend, WriterParts()
      ensures match sys.resolve(old(files), name)
        case File(id) => ok &&
          At(input, ToFile(id), WithFiles(env, if append then old(files) else sys.truncate(old(files), id)))
        case _ => !ok && At(input, SinkOf(None, piped), PutAll(sys, SinkOf(None, piped), NotAFile(name), env))
    {
      match sys.resolve(files, name) {
        case File(id) =>
          outFile, outAppend := Some(id), append;
          if !outAppend {
            files := sys.truncate(files, id);
          }
          return true;
        case _ =>
          Puts(NotAFile(name), input, SinkOf(None, piped), env);
          return false;
      }
    }

    method CreateMissing(name: string, ghost input: Source, ghost sink: Sink, ghost env: Env<W>) returns (ok: bool)
      requires At(input, sink, env)
      modifies `files
      ensures (files, ok) == Created(sys, old(files), name) && At(input, sink, WithFiles(env, files))
    {
      ok := true;
      if sys.resolve(files, name) == Missing {
        var (changed, made) := sys.mkfile(files, name);
        files, ok := changed, made;
      }
    }

    method OpenInput(inp: Input, ghost input: Source, ghost sink: Sink, ghost env: Env<W>) returns (ok: bool)
      requires At(input, sink, env) && inFile == None && env.off == 0
      modifies `files, `screen, `serial, `inFile, `inOff, WriterParts()
      ensures match OpenIn(sys, old(files), inp)
        case Opened(_, file) => ok && At(SourceOf(file, input), sink, env)
        case Refused(_, complaint) => !ok && At(input, sink, PutAll(sys, sink, complaint, env))
    {
      if inp == NoInput {
        return true;
      }
      match sys.resolve(files, inp.name) {
        case File(id) =>
          inFile, inOff := Some(id), 0;
          return true;
        case _ =>
          Puts(NoSuchFile(inp.name), input, sink, env);
          return false;
      }
    }

    // ----- a stage

    method ShellRunBuiltin(argv: seq<string>, ghost src: Source, ghost sink: Sink, ghost env: Env<W>, ghost fuel: nat)
      returns (rc: int)
      requires argv != [] && At(src, sink, env) && RunWords(sys, argv, src, sink, env, fuel).Some?
      modifies `files, `screen, `serial, `keysRead, `inOff, `pipeInOff, WriterParts()
      ensures var end := RunWords(sys, argv, src, sink, env, fuel).value;
        rc == end.code && At(src, sink, end.env)
    {
      match sys.command(argv) {
        case None =>
          Puts(NotFound(argv[0]), src, sink, env);
          return 127;
        case Some(start) =>
          rc := RunCommand(start, src, sink, env, fuel);
      }
    }

    /** What a stage finds: its input at the start, its pipe empty, and no redirection. */
    ghost predicate Fresh(input: Source, piped: bool)
      reads this, first, second, first.data, second.data
    {
      && Valid() && Reads(input, 0) && !input.FromFile?
      && outFile == None && inFile == None && !pipeWriting
      && piped == (pipeWriter != null) && (piped ==> pipeWriter.len == 0)
    }

    /** What a stage leaves. */
    ghost predicate Left(env: Env<W>)
      reads this, first, second, first.data, second.data
    {
      && Valid() && env.world == Now() && Holds(env.sent)
      && outFile == None && inFile == None && !pipeWriting
    }

    /** The second half of apply_redirs, and the command. */
    method RunWithOutput(argv: seq<string>, inp: Input, ghost out: Output, ghost input: Source, ghost sink: Sink,
        ghost env: Env<W>, ghost fuel: nat)
      returns (rc: int)
      requires argv != [] && At(input, sink, env) && inFile == None && env.off == 0
      requires StageWithOutput(sys, Cmdline(argv, out, inp), input, sink, env, fuel).Some?
      modifies `files, `screen, `serial, `keysRead, `inFile, `inOff, `pipeInOff, WriterParts()
      ensures var end := StageWithOutput(sys, Cmdline(argv, out, inp), input, sink, env, fuel).value;
        rc == end.code && Valid() && end.env.world == Now() && Holds(end.env.sent)
    {
      ghost var o := OpenIn(sys, files, inp);
      var ok := OpenInput(inp, input, sink, env);
      if !ok {
        return 1;
      }
      rc := ShellRunBuiltin(argv, SourceOf(o.file, input), sink, env, fuel);
    }

    /** Both redirections, and the command. */
    method RunRedirected(argv: seq<string>, out: Output, inp: Input, piped: bool, ghost input: Source,
        ghost env: Env<W>, ghost fuel: nat)
      returns (rc: int)
      requires argv != [] && At(input, SinkOf(None, piped), env) && inFile == None && env == Env(Now(), 0, "")
      requires Stage(sys, Cmdline(argv, out, inp), input, piped, Now(), fuel).Some?
      modifies `files, `screen, `serial, `keysRead, `outFile, `outAppend, `inFile, `inOff, `pipeInOff, WriterParts()
      ensures var end := Stage(sys, Cmdline(argv, out, inp), input, piped, old(Now()), fuel).value;
        rc == end.code && Valid() && end.env.world == Now() && Holds(end.env.sent)
    {
      ghost var o := OpenOut(sys, files, out);
      var ok := OpenOutput(out, input, piped, env);
      if !ok {
        return 1;
      }
      rc := RunWithOutput(argv, inp, out, input, SinkOf(o.file, piped), WithFiles(env, o.files), fuel);
    }

    method BeginStage(piped: bool, ghost input: Source)
      requires Fresh(input, piped)
      modifies `outFile, `inFile, `inOff, `pipeWriting, WriterParts()
      ensures inFile == None && At(input, SinkOf(None, piped), Env(Now(), 0, ""))
    {
      pipeWriting := piped;
      if piped && pipeWriter != null {
        pipeWriter.len := 0;
      }
      outFile, inFile, inOff := None, None, 0;
    }

    /** The rest of run_segment, once the words are known. */
    method RunStage(argv: seq<string>, out: Output, inp: Input, piped: bool, ghost input: Source, ghost fuel: nat)
      returns (rc: int)
      requires Fresh(input, piped) && Stage(sys, Cmdline(argv, out, inp), input, piped, Now(), fuel).Some?
      modifies `files, `screen, `serial, `keysRead, `outFile, `outAppend, `inFile, `inOff, `pipeInOff, `pipeWriting
      modifies WriterParts()
      ensures var end := Stage(sys, Cmdline(argv, out, inp), input, piped, old(Now()), fuel).value;
        rc == end.code && Left(end.env)
    {
      if argv == [] {
        return 0;
      }
      BeginStage(piped, input);
      ghost var end := Stage(sys, Cmdline(argv, out, inp), input, piped, Now(), fuel).value;
      rc := RunRedirected(argv, out, inp, piped, input, Env(Now(), 0, ""), fuel);
      EndStage(end.env);
    }

    method EndStage(ghost env: Env<W>)
      requires Valid() && env.world == Now() && Holds(env.sent)
      modifies `outFile, `inFile, `pipeWriting
      ensures Left(env)
    {
      outFile, inFile, pipeWriting := None, None, false;
    }

    // ----- the pipeline

    /** argv has room for 31 words and the null behind them. */
    method CopyArgs(buf: array<char>, items: seq<Item>) returns (argv: seq<string>)
      requires |items| < MAX_ARGS
      ensures argv == ItemTexts(buf[..], items)
    {
      var a := new string[MAX_ARGS](_ => "");
      for i := 0 to |items|
        invariant forall k :: 0 <= k < i ==> a[k] == ItemText(buf[..], items[k])
      {
        a[i] := ItemText(buf[..], items[i]);
      }
      argv := a[..|items|];
    }

    /** run_segment; `fits` says whether tokenizing ends and the words have room in argv. */
    method RunSegment(buf: array<char>, segment: nat, ghost s: string, piped: bool, ghost input: Source,
        ghost fuel: nat)
      returns (rc: int, fits: bool)
      requires LineAt(buf, segment, s) && buf != first.data && buf != second.data && Fresh(input, piped)
      requires SegmentFits(s, segment, lastExit) ==>
        Stage(sys, Lex(s, lastExit, segment, EMPTY), input, piped, Now(), fuel).Some?
      modifies `files, `screen, `serial, `keysRead, `outFile, `outAppend, `inFile, `inOff, `pipeInOff, `pipeWriting
      modifies WriterParts(), buf
      ensures fits <==> SegmentFits(s, segment, lastExit)
      ensures fits ==>
        var end := Stage(sys, Lex(s, lastExit, segment, EMPTY), input, piped, old(Now()), fuel).value;
        rc == end.code && Left(end.env)
      ensures fits ==>
        forall k {:trigger buf[k]} :: 0 <= k < segment || |s| <= k < buf.Length ==> buf[k] == old(buf[k])
    {
      hide Stage, Lex, LineFits, Left;
      var ends, items, out, inp := Tokenize(buf, segment, s, lastExit);
      if !ends || |items| >= MAX_ARGS {
        return 1, false;
      }
      var argv := CopyArgs(buf, items);
      rc := RunStage(argv, out, inp, piped, input, fuel);
      fits := true;
    }

    function Pipe(which: nat): PipeStorage {
      if which == 0 then first else second
    }

    /** Between two stages: the buffer to be written next is not the one to be read. */
    ghost predicate Between(which: nat, input: Source)
      reads this, first, second, first.data, second.data
    {
      && Sound() && Reads(input, 0) && !input.FromFile? && pipeInOff == 0 && which <= 1
      && outFile == None && inFile == None && !pipeWriting
      && pipeReader != Pipe(which) && Pipe(which).len == 0
    }

    /** What has been written becomes what is read. */
    method SwapPipes(which: nat, ghost env: Env<W>) returns (next: nat)
      requires which <= 1 && Left(env) && pipeWriter == Pipe(which)
      modifies `pipeReader, `pipeInOff, first`len, second`len
      ensures next == 1 - which && Between(next, Bytes(ThroughPipe(env.sent)))
    {
      pipeReader, pipeInOff := Pipe(which), 0;
      next := 1 - which;
      Pipe(next).len := 0;
    }

    /** The bar is overwritten and the segment in front of it run. */
    method RunUpTo(buf: array<char>, segment: nat, p: nat, which: nat, ghost s: string, ghost input: Source,
        ghost fuel: nat)
      returns (other: nat, fits: bool)
      requires segment <= p < |s| && LineAt(buf, segment, s)
      requires Between(which, input) && buf != first.data && buf != second.data
      requires SegmentFits(s[..p], segment, lastExit) ==>
        Stage(sys, Lex(s[..p], lastExit, segment, EMPTY), input, true, Now(), fuel).Some?
      modifies `files, `screen, `serial, `keysRead, `outFile, `outAppend, `inFile, `inOff, `pipeInOff, `pipeWriting
      modifies `pipeReader, `pipeWriter
      modifies first, second, first.data, second.data, buf
      ensures fits <==> SegmentFits(s[..p], segment, lastExit)
      ensures fits ==> LineAt(buf, p + 1, s)
      ensures fits ==>
        var env := Stage(sys, Lex(s[..p], lastExit, segment, EMPTY), input, true, old(Now()), fuel).value.env;
        Now() == env.world && Between(other, Bytes(ThroughPipe(env.sent)))
      ensures fits ==>
        forall k {:trigger buf[k]} :: 0 <= k < segment || |s| <= k < buf.Length ==> buf[k] == old(buf[k])
    {
      hide Stage, Lex, SegmentFits;
      ghost var stage := Stage(sys, Lex(s[..p], lastExit, segment, EMPTY), input, true, Now(), fuel);
      buf[p] := '\0';
      pipeWriter := Pipe(which);
      var rc;
      rc, fits := RunSegment(buf, segment, s[..p], true, input, fuel);
      other := which;
      if fits {
        other := SwapPipes(which, stage.value.env);
      }
    }

    /** A segment in front of a bar: afterwards the rest of the pipeline is still to be run. */
    method PassOn(buf: array<char>, segment: nat, p: nat, which: nat, ghost s: string, ghost input: Source,
        ghost fuel: nat)
      returns (next: nat, other: nat, fits: bool, ghost passed: Source)
      requires segment <= p < |s| && p == BarAt(s, segment) && LineAt(buf, segment, s)
      requires Between(which, input) && buf != first.data && buf != second.data
      requires CommandsExit(sys, s, segment, lastExit, input, Now(), fuel)
      modifies `files, `screen, `serial, `keysRead, `outFile, `outAppend, `inFile, `inOff, `pipeInOff, `pipeWriting
      modifies `pipeReader, `pipeWriter
      modifies first, second, first.data, second.data, buf
      ensures !fits ==> !SegmentsOk(s, segment, lastExit)
      ensures fits ==>
        && p < next <= |s| && LineAt(buf, next, s) && Between(other, passed)
        && (SegmentsOk(s, segment, lastExit) <==> SegmentsOk(s, next, lastExit))
        && CommandsExit(sys, s, next, lastExit, passed, Now(), fuel)
        && Compose(sys, Segments(s, next, lastExit), passed, Now(), fuel)
            == Compose(sys, Segments(s, segment, lastExit), input, old(Now()), fuel)
      ensures fits ==>
        forall k {:trigger buf[k]} :: 0 <= k < segment || |s| <= k < buf.Length ==> buf[k] == old(buf[k])
    {
      hide Stage, Lex, Between, SegmentFits;
      ComposeSegments(sys, s, segment, lastExit, input, Now(), fuel);
      ghost var stage := Stage(sys, Lex(s[..p], lastExit, segment, EMPTY), input, true, Now(), fuel);
      other, fits := RunUpTo(buf, segment, p, which, s, input, fuel);
      next, passed := p, input;
      if fits {
        passed := Bytes(ThroughPipe(stage.value.env.sent));
        next := SkipBlanksAt(buf, p + 1, s);
      }
    }

    /** The segment at the end of the line. */
    method RunLast(buf: array<char>, segment: nat, which: nat, ghost s: string, ghost input: Source, ghost fuel: nat)
      returns (rc: int, fits: bool)
      requires segment <= |s| == BarAt(s, segment) && LineAt(buf, segment, s)
      requires Between(which, input) && buf != first.data && buf != second.data
      requires CommandsExit(sys, s, segment, lastExit, input, Now(), fuel)
      modifies `files, `screen, `serial, `keysRead, `outFile, `outAppend, `inFile, `inOff, `pipeInOff, `pipeWriting
      modifies `pipeWriter, buf
      ensures fits <==> SegmentsOk(s, segment, lastExit)
      ensures fits ==>
        && Sound()
        && Compose(sys, Segments(s, segment, lastExit), input, old(Now()), fuel) == Some(Result(rc, Now()))
      ensures fits ==>
        forall k {:trigger buf[k]} :: 0 <= k < segment || |s| <= k < buf.Length ==> buf[k] == old(buf[k])
    {
      hide Stage, Lex, SegmentFits;
      ComposeSegments(sys, s, segment, lastExit, input, Now(), fuel);
      assert s[..|s|] == s;
      pipeWriter := null;
      rc, fits := RunSegment(buf, segment, s, false, input, fuel);
    }

    method Reset()
      requires Valid()
      modifies `outFile, `inFile, `pipeInOff, `pipeWriting, `pipeReader, `pipeWriter, first`len, second`len
      ensures Between(0, Keyboard)
    {
      first.len, second.len := 0, 0;
      pipeReader, pipeWriter, pipeWriting, pipeInOff := null, null, false, 0;
      outFile, inFile := None, None;
    }

    method RunSegments(buf: array<char>, line: nat, ghost s: string, ghost fuel: nat) returns (rc: int, fits: bool)
      requires LineAt(buf, line, s)
      requires Between(0, Keyboard) && buf != first.data && buf != second.data
      requires CommandsExit(sys, s, line, lastExit, Keyboard, Now(), fuel)
      modifies `files, `screen, `serial, `keysRead, `outFile, `outAppend, `inFile, `inOff, `pipeInOff, `pipeWriting
      modifies `pipeReader, `pipeWriter
      modifies first, second, first.data, second.data, buf
      ensures fits <==> SegmentsOk(s, line, lastExit)
      ensures fits ==>
        && Sound()
        && Compose(sys, Segments(s, line, lastExit), Keyboard, old(Now()), fuel) == Some(Result(rc, Now()))
      ensures fits ==>
        forall k {:trigger buf[k]} :: 0 <= k < line || |s| <= k < buf.Length ==> buf[k] == old(buf[k])
    {
      hide Compose, Segments, SegmentsOk, CommandsExit, Between, Sound;
      ghost var input, ended := Keyboard, Compose(sys, Segments(s, line, lastExit), Keyboard, Now(), fuel);
      var segment: nat, which: nat := line, 0;
      var p := FindBar(buf, segment, s);
      while buf[p] == '|'
        invariant line <= segment <= p <= |s| && LineAt(buf, segment, s) && p == BarAt(s, segment)
        invariant Between(which, input) && CommandsExit(sys, s, segment, lastExit, input, Now(), fuel)
        invariant SegmentsOk(s, segment, lastExit) == SegmentsOk(s, line, lastExit)
        invariant Compose(sys, Segments(s, segment, lastExit), input, Now(), fuel) == ended
        invariant forall k {:trigger buf[k]} :: 0 <= k < line || |s| <= k < buf.Length ==> buf[k] == old(buf[k])
        decreases |s| - p
      {
        segment, which, fits, input := PassOn(buf, segment, p, which, s, input, fuel);
        if !fits {
          return 1, false;
        }
        p := FindBar(buf, segment, s);
      }
      rc, fits := RunLast(buf, segment, which, s, input, fuel);
    }

    method FindBar(buf: array<char>, segment: nat, ghost s: string) returns (p: nat)
      requires LineAt(buf, segment, s)
      ensures p == BarAt(s, segment)
    {
      p := segment;
      while buf[p] != '|' && buf[p] != '\0'
        invariant segment <= p <= |s| && BarAt(s, p) == BarAt(s, segment)
        decreases |s| - p
      {
        p := p + 1;
      }
    }

    /** The line ends in a NUL of its own. */
    method EndLine(buf: array<char>, line: nat, len: nat)
      requires line + len < buf.Length && forall k :: line <= k < line + len ==> buf[k] != '\0'
      modifies buf
      ensures LineAt(buf, line, old(buf[..line + len]))
      ensures forall k {:trigger buf[k]} :: 0 <= k < buf.Length && k != line + len ==> buf[k] == old(buf[k])
    {
      buf[line + len] := '\0';
    }

    /** exec_pipeline; `fits` says whether all of its segments do. */
    method ExecPipeline(buf: array<char>, line: nat, len: nat, ghost fuel: nat) returns (rc: int, fits: bool)
      requires Valid() && buf != first.data && buf != second.data
      requires line + len < buf.Length && forall k :: line <= k < line + len ==> buf[k] != '\0'
      requires CommandsExit(sys, buf[..line + len], line, lastExit, Keyboard, Now(), fuel)
      modifies `files, `screen, `serial, `keysRead, `outFile, `outAppend, `inFile, `inOff, `pipeInOff, `pipeWriting
      modifies `pipeReader, `pipeWriter
      modifies first, second, first.data, second.data, buf
      ensures fits <==> old(SegmentsOk(buf[..line + len], line, lastExit))
      ensures fits ==>
        && Valid() && Idle()
        && Compose(sys, old(Segments(buf[..line + len], line, lastExit)), Keyboard, old(Now()), fuel)
            == Some(Result(rc, Now()))
      ensures fits ==>
        forall k {:trigger buf[k]} :: 0 <= k < line || line + len < k < buf.Length ==> buf[k] == old(buf[k])
    {
      hide Compose, Segments, SegmentsOk, CommandsExit, Between;
      ghost var s := buf[..line + len];
      EndLine(buf, line, len);
      Reset();
      rc, fits := RunSegments(buf, line, s, fuel);
      if fits {
        Release();
      }
    }

    method Release()
      requires Sound()
      modifies `outFile, `inFile, `pipeWriting, `pipeReader, `pipeWriter
      ensures Valid() && Idle()
    {
      pipeReader, pipeWriter, pipeWriting := null, null, false;
      outFile, inFile := None, None;
    }
  }
}
