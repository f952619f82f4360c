/** `cat` without arguments (src/cmds.c:13-43, 233-239) as a command of a pipeline: it reads
    all of its input into a growing buffer and then writes it. */
module Cat {
  import opened Arithmetic
  import opened Strings
  import Lexer
  import opened Pipeline
  import Console

  /** Reading, putting a character into the buffer, and writing. */
  datatype CatState =
    | Reading(text: string, cap: nat)
    | Storing(text: string, cap: nat, c: char)
    | Writing(text: string, i: nat)

  /** kmalloc, as far as the state of the files goes. */
  type Alloc<!W> = (W, nat) -> (W, bool)

  const START := Reading("", 0)

  /** (char)c, of what sh_getc returns */
  function Received(c: int): char {
    (c % 256) as char
  }

  predicate IsFull(len: nat, cap: nat) {
    len + 1 >= cap
  }

  function NewSize(cap: nat): nat {
    if cap > 0 then cap * 2 else 256
  }

  /** buf_putc: without memory the character is lost. */
  function Store<W>(alloc: Alloc<W>, files: W, text: string, cap: nat, c: char): (W, CatState) {
    if !IsFull(|text|, cap) then (files, Reading(text + [c], cap))
    else
      var (after, ok) := alloc(files, NewSize(cap));
      (after, if ok then Reading(text + [c], NewSize(cap)) else Reading(text, cap))
  }

  /** What cat does in each of its states, when `cat` embeds them in those of the system. */
  ghost predicate Does<W(!new), S>(alloc: Alloc<W>, cat: CatState -> S, x: CatState, action: Action<W, S>) {
    match x
    case Reading(text, cap) =>
      && action.Getc?
      && forall c: int {:trigger action.next(c)} ::
          action.next(c) == cat(if c < 0 then Writing(text, 0) else Storing(text, cap, Received(c)))
    case Storing(text, cap, c) =>
      && action.Work?
      && forall files: W {:trigger action.work(files)} ::
          var (after, y) := Store(alloc, files, text, cap, c);
          action.work(files) == (after, cat(y))
    case Writing(text, i) =>
      action == if i < |text| then Putc(text[i], cat(Writing(text, i + 1))) else Exit(0)
  }

  ghost predicate IsCat<W(!new), S(!new)>(sys: System<W, S>, alloc: Alloc<W>, cat: CatState -> S) {
    forall x: CatState {:trigger cat(x)} :: Does(alloc, cat, x, sys.step(cat(x)))
  }

  /** Allocating memory leaves all files as they are. */
  ghost predicate AllocKeeps<W(!new), S>(sys: System<W, S>, alloc: Alloc<W>) {
    forall files: W, size: nat, f: nat {:trigger sys.data(alloc(files, size).0, f)} ::
      sys.data(alloc(files, size).0, f) == sys.data(files, f)
  }

  /** The source gives just this text. */
  ghost predicate Supplies<W, S>(sys: System<W, S>, src: Source, files: W, text: string) {
    match src
    case Keyboard => false
    case Bytes(bytes) => bytes == text
    case FromFile(file) => sys.data(files, file) == text
  }

  predicate AllBytes(text: string) {
    forall k :: 0 <= k < |text| ==> text[k] as int < 256
  }

  lemma StoreReads<W>(alloc: Alloc<W>, files: W, text: string, cap: nat, c: char)
    ensures var next := Store(alloc, files, text, cap, c).1; next.Reading? && |next.text| <= |text| + 1
  {
  }

  // ----- what it collects

  /** The files and the buffer when the text from `off` on has been read. */
  function Collected<W>(alloc: Alloc<W>, files: W, text: string, off: nat, kept: string, cap: nat): (W, string)
    requires off <= |text|
    decreases |text| - off
  {
    if off == |text| then (files, kept)
    else
      var (after, next) := Store(alloc, files, kept, cap, text[off]);
      Collected(alloc, after, text, off + 1, next.text, next.cap)
  }

  /** The memory for `more` characters behind the first `len` is there. */
  predicate HasMemory<W>(alloc: Alloc<W>, files: W, len: nat, cap: nat, more: nat)
    decreases more
  {
    if more == 0 then true
    else if !IsFull(len, cap) then HasMemory(alloc, files, len + 1, cap, more - 1)
    else
      var (after, ok) := alloc(files, NewSize(cap));
      ok && HasMemory(alloc, after, len + 1, NewSize(cap), more - 1)
  }

  lemma {:induction false} CollectsAtMost<W>(alloc: Alloc<W>, files: W, text: string, off: nat, kept: string, cap: nat)
    requires off <= |text|
    ensures |Collected(alloc, files, text, off, kept, cap).1| <= |kept| + |text| - off
    decreases |text| - off
  {
    if off < |text| {
      var (after, next) := Store(alloc, files, kept, cap, text[off]);
      CollectsAtMost(alloc, after, text, off + 1, next.text, next.cap);
    }
  }

  /** Everything is kept exactly when no allocation fails. */
  lemma {:induction false} CollectsAll<W>(alloc: Alloc<W>, files: W, text: string, off: nat, kept: string, cap: nat)
    requires off <= |text|
    ensures Collected(alloc, files, text, off, kept, cap).1 == kept + text[off..]
      <==> HasMemory(alloc, files, |kept|, cap, |text| - off)
    decreases |text| - off
  {
    if off == |text| {
      PlusNothing(kept);
    } else {
      var (after, next) := Store(alloc, files, kept, cap, text[off]);
      DropLess(text, off);
      Associative(kept, [text[off]], text[off + 1..]);
      if next.text == kept {
        CollectsAtMost(alloc, after, text, off + 1, kept, cap);
      } else {
        CollectsAll(alloc, after, text, off + 1, next.text, next.cap);
      }
    }
  }

  // ----- what it does

  lemma WritesOne<W(!new), S(!new)>(sys: System<W, S>, alloc: Alloc<W>, cat: CatState -> S, src: Source, sink: Sink,
      text: string, i: nat, env: Env<W>)
    requires IsCat(sys, alloc, cat)
    ensures Move(sys, cat(Writing(text, i)), src, sink, env)
      == if i < |text| then On(cat(Writing(text, i + 1)), Put(sys, sink, text[i], env)) else Over(0)
  {
    assert Does(alloc, cat, Writing(text, i), sys.step(cat(Writing(text, i))));
  }

  lemma {:induction false} Writes<W(!new), S(!new)>(sys: System<W, S>, alloc: Alloc<W>, cat: CatState -> S, src: Source,
      sink: Sink, text: string, i: nat, env: Env<W>, fuel: nat)
    requires IsCat(sys, alloc, cat) && i <= |text| && fuel > |text| - i
    ensures Run(sys, cat(Writing(text, i)), src, sink, env, fuel) == Some(Ended(0, PutFrom(sys, sink, text, i, env)))
    decreases |text| - i
  {
    hide IsCat, Move, Put;
    WritesOne(sys, alloc, cat, src, sink, text, i, env);
    if i < |text| {
      Writes(sys, alloc, cat, src, sink, text, i + 1, Put(sys, sink, text[i], env), fuel - 1);
    }
  }

  /** One character, from the source into the buffer. */
  lemma ReadsOne<W(!new), S(!new)>(sys: System<W, S>, alloc: Alloc<W>, cat: CatState -> S, src: Source, sink: Sink,
      text: string, kept: string, cap: nat, env: Env<W>, fuel: nat)
    requires IsCat(sys, alloc, cat) && Supplies(sys, src, env.world.files, text) && AllBytes(text)
    requires env.off < |text| && fuel >= 2
    ensures var (files, next) := Store(alloc, env.world.files, kept, cap, text[env.off]);
      Run(sys, cat(Reading(kept, cap)), src, sink, env, fuel)
        == Run(sys, cat(next), src, sink, WithFiles(env.(off := env.off + 1), files), fuel - 2)
  {
    var c := text[env.off];
    var x, y := Reading(kept, cap), Storing(kept, cap, c);
    assert Does(alloc, cat, x, sys.step(cat(x))) && Does(alloc, cat, y, sys.step(cat(y)));
    assert Got(sys, src, env) == c as int && Received(c as int) == c;
    var read := env.(off := env.off + 1);
    assert Move(sys, cat(x), src, sink, env) == On(cat(y), read);
    var (files, next) := Store(alloc, env.world.files, kept, cap, c);
    assert Move(sys, cat(y), src, sink, read) == On(cat(next), WithFiles(read, files));
  }

  lemma EndOfInput<W(!new), S(!new)>(sys: System<W, S>, alloc: Alloc<W>, cat: CatState -> S, src: Source, sink: Sink,
      text: string, kept: string, cap: nat, env: Env<W>)
    requires IsCat(sys, alloc, cat) && Supplies(sys, src, env.world.files, text) && env.off == |text|
    ensures Move(sys, cat(Reading(kept, cap)), src, sink, env) == On(cat(Writing(kept, 0)), env)
  {
    var x := Reading(kept, cap);
    assert Does(alloc, cat, x, sys.step(cat(x)));
    assert Got(sys, src, env) == -1 && AfterGet(sys, src, env) == env;
  }

  lemma ReadsEnd<W(!new), S(!new)>(sys: System<W, S>, alloc: Alloc<W>, cat: CatState -> S, src: Source, sink: Sink,
      text: string, kept: string, cap: nat, env: Env<W>, fuel: nat)
    requires IsCat(sys, alloc, cat) && Supplies(sys, src, env.world.files, text)
    requires env.off == |text| && fuel >= |kept| + 2
    ensures Run(sys, cat(Reading(kept, cap)), src, sink, env, fuel) == Some(Ended(0, PutAll(sys, sink, kept, env)))
  {
    hide IsCat, Supplies, Move, Put;
    EndOfInput(sys, alloc, cat, src, sink, text, kept, cap, env);
    Writes(sys, alloc, cat, src, sink, kept, 0, env, fuel - 1);
  }

  lemma StillSupplies<W(!new), S>(sys: System<W, S>, alloc: Alloc<W>, src: Source, text: string, files: W, kept: string,
      cap: nat, c: char)
    requires AllocKeeps(sys, alloc) && Supplies(sys, src, files, text)
    ensures Supplies(sys, src, Store(alloc, files, kept, cap, c).0, text)
  {
  }

  /** cat, in the middle of reading, writes in the end just what it collects. */
  lemma {:induction false} CatRuns<W(!new), S(!new)>(sys: System<W, S>, alloc: Alloc<W>, cat: CatState -> S,
      src: Source, sink: Sink, text: string, kept: string, cap: nat, env: Env<W>, fuel: nat)
    requires IsCat(sys, alloc, cat) && AllocKeeps(sys, alloc)
    requires Supplies(sys, src, env.world.files, text) && AllBytes(text)
    requires env.off <= |text| && fuel >= |kept| + 3 * (|text| - env.off) + 2
    ensures var (files, all) := Collected(alloc, env.world.files, text, env.off, kept, cap);
      Run(sys, cat(Reading(kept, cap)), src, sink, env, fuel)
        == Some(Ended(0, PutAll(sys, sink, all, WithFiles(env.(off := |text|), files))))
    decreases |text| - env.off
  {
    hide IsCat, AllocKeeps, Supplies, AllBytes, Store, Put;
    if env.off == |text| {
      ReadsEnd(sys, alloc, cat, src, sink, text, kept, cap, env, fuel);
    } else {
      var (files, next) := Store(alloc, env.world.files, kept, cap, text[env.off]);
      ReadsOne(sys, alloc, cat, src, sink, text, kept, cap, env, fuel);
      StillSupplies(sys, alloc, src, text, env.world.files, kept, cap, text[env.off]);
      StoreReads(alloc, env.world.files, kept, cap, text[env.off]);
      var after := WithFiles(env.(off := env.off + 1), files);
      CatRuns(sys, alloc, cat, src, sink, text, next.text, next.cap, after, fuel - 2);
    }
  }

  lemma {:induction false} PutOnScreen<W, S>(sys: System<W, S>, text: string, i: nat, env: Env<W>)
    requires i <= |text|
    ensures PutFrom(sys, ToScreen, text, i, env)
      == env.(world := env.world.(screen := env.world.screen + Typed(text[i..]),
                                  serial := env.world.serial + text[i..]))
    decreases |text| - i
  {
    var screen, serial := env.world.screen, env.world.serial;
    if i < |text| {
      PutOnScreen(sys, text, i + 1, Put(sys, ToScreen, text[i], env));
      DropLess(text, i);
      TypedMore(text[i], text[i + 1..]);
      Associative(screen, [Console.Char(Byte(text[i]))], Typed(text[i + 1..]));
      Associative(serial, [text[i]], text[i + 1..]);
    } else {
      assert text[i..] == "" && Typed("") == [];
      PlusNothing(screen);
      PlusNothing(serial);
    }
  }

  lemma TypedMore(c: char, rest: string)
    ensures Typed([c] + rest) == [Console.Char(Byte(c))] + Typed(rest)
  {
  }

  /** The text appears on the screen and goes out of the serial port. */
  ghost predicate Displays<W>(before: World<W>, text: string, after: World<W>) {
    && after.screen == before.screen + Typed(text) && after.serial == before.serial + text
    && after.keysRead == before.keysRead
  }

  /** With memory for it, cat shows the whole text. */
  lemma CatShows<W(!new), S(!new)>(sys: System<W, S>, alloc: Alloc<W>, cat: CatState -> S, src: Source, text: string,
      world: World<W>, fuel: nat)
    requires IsCat(sys, alloc, cat) && AllocKeeps(sys, alloc)
    requires Supplies(sys, src, world.files, text) && AllBytes(text) && fuel >= 3 * |text| + 2
    ensures var end := Run(sys, cat(START), src, ToScreen, Env(world, 0, ""), fuel);
      && end.Some? && end.value.code == 0
      && (Displays(world, text, end.value.env.world) <==> HasMemory(alloc, world.files, 0, 0, |text|))
  {
    var (files, all) := Collected(alloc, world.files, text, 0, "", 0);
    CatRuns(sys, alloc, cat, src, ToScreen, text, "", 0, Env(world, 0, ""), fuel);
    PutOnScreen(sys, all, 0, WithFiles(Env(world, |text|, ""), files));
    CollectsAll(alloc, world.files, text, 0, "", 0);
    PlusNothing(text);
    assert text[0..] == text && all[0..] == all;
    if world.serial + all == world.serial + text {
      Parts(world.serial, all);
      Parts(world.serial, text);
    }
  }

  /** Behind the last bar, cat shows the first 64 KiB of what was sent, and nothing else is
      written on the screen. */
  lemma CatAtTheEnd<W(!new), S(!new)>(sys: System<W, S>, alloc: Alloc<W>, cat: CatState -> S, front: seq<Lexer.Cmdline>,
      input: Source, world: World<W>, fuel: nat)
    requires IsCat(sys, alloc, cat) && AllocKeeps(sys, alloc) && sys.command(["cat"]) == Some(cat(START))
    requires front != [] && fuel >= 3 * PIPE_MAX + 2 && Capture(sys, front, input, world, fuel).Some?
    requires AllBytes(ThroughPipe(Capture(sys, front, input, world, fuel).value.env.sent))
    ensures
      var end := Capture(sys, front, input, world, fuel).value.env;
      var passed := ThroughPipe(end.sent);
      var result := Compose(sys, front + [Lexer.Cmdline(["cat"], Lexer.NoOutput, Lexer.NoInput)], input, world, fuel);
      && Unwritten(world.screen, end.world.screen) && end.world.serial == world.serial
      && result.Some? && result.value.code == 0
      && (Displays(end.world, passed, result.value.world)
          <==> HasMemory(alloc, end.world.files, 0, 0, |passed|))
  {
    var end := Capture(sys, front, input, world, fuel).value.env;
    var copy := Lexer.Cmdline(["cat"], Lexer.NoOutput, Lexer.NoInput);
    var passed := ThroughPipe(end.sent);
    CutAnywhere(sys, front, [copy], input, world, fuel);
    CaptureConfined(sys, front, input, world, fuel);
    CatShows(sys, alloc, cat, Bytes(passed), passed, end.world, fuel);
    assert WithFiles(Env(end.world, 0, ""), end.world.files) == Env(end.world, 0, "");
  }

  /** "command | cat" shows just what the command wrote, or the first 64 KiB of it. */
  lemma PipeToCat<W(!new), S(!new)>(sys: System<W, S>, alloc: Alloc<W>, cat: CatState -> S, words: seq<string>,
      input: Source, world: World<W>, fuel: nat, s: S, run: seq<(S, Env<W>)>, end: Ended<W>)
    requires IsCat(sys, alloc, cat) && AllocKeeps(sys, alloc) && sys.command(["cat"]) == Some(cat(START))
    requires words != [] && sys.command(words) == Some(s)
    requires ComesTo(sys, input, ToPipe, run, s, Env(world, 0, ""), end) && fuel >= |run| && fuel >= 3 * PIPE_MAX + 2
    requires AllBytes(ThroughPipe(Wrote(sys, run)))
    ensures
      var passed := ThroughPipe(Wrote(sys, run));
      var first := Lexer.Cmdline(words, Lexer.NoOutput, Lexer.NoInput);
      var result := Compose(sys, [first] + [Lexer.Cmdline(["cat"], Lexer.NoOutput, Lexer.NoInput)], input, world, fuel);
      && Unwritten(world.screen, end.env.world.screen) && end.env.world.serial == world.serial
      && result.Some? && result.value.code == 0
      && (Displays(end.env.world, passed, result.value.world)
          <==> HasMemory(alloc, end.env.world.files, 0, 0, |passed|))
  {
    var first := Lexer.Cmdline(words, Lexer.NoOutput, Lexer.NoInput);
    StepsToExit(sys, input, ToPipe, run, end.code, fuel);
    OutputIs(sys, input, ToPipe, run);
    PlusNothing(Wrote(sys, run));
    assert WithFiles(Env(world, 0, ""), world.files) == Env(world, 0, "");
    assert Capture(sys, [first], input, world, fuel) == Some(end);
    CatAtTheEnd(sys, alloc, cat, [first], input, world, fuel);
  }

  /** An unknown command, or an input that is not there: the complaint, and the code. */
  lemma Complaints<W(!new), S(!new)>(sys: System<W, S>, words: seq<string>, name: string, input: Source,
      world: World<W>, fuel: nat)
    requires words != []
    ensures sys.command(words) == None ==>
      var result := Compose(sys, [Lexer.Cmdline(words, Lexer.NoOutput, Lexer.NoInput)], input, world, fuel);
      && result.Some? && result.value.code == 127 && result.value.world.files == world.files
      && Displays(world, words[0] + ": command not found\n", result.value.world)
    ensures !sys.resolve(world.files, name).File? ==>
      var result := Compose(sys, [Lexer.Cmdline(words, Lexer.NoOutput, Lexer.Input(name))], input, world, fuel);
      && result.Some? && result.value.code == 1 && result.value.world.files == world.files
      && Displays(world, "shell: " + name + ": no such file\n", result.value.world)
  {
    assert WithFiles(Env(world, 0, ""), world.files) == Env(world, 0, "");
    PutOnScreen(sys, NotFound(words[0]), 0, Env(world, 0, ""));
    PutOnScreen(sys, NoSuchFile(name), 0, Env(world, 0, ""));
    assert NotFound(words[0])[0..] == NotFound(words[0]) && NoSuchFile(name)[0..] == NoSuchFile(name);
  }
}
