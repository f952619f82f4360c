/** What redirections leave in files and read from them (src/shell.c:46-48, 133-137,
    291-322), for file operations that behave like those of src/vfs.c. */
module Redirection {
  import opened Arithmetic
  import opened Lexer
  import opened Pipeline
  import opened Cat

  // ----- what the file operations do

  /** What names lead to, and what files hold. */
  datatype View<!F> = View(entry: string -> Entry<F>, text: F -> string)

  /** A character appended to f extends it or is refused; no name and no other file
      changes. */
  ghost predicate Appends<F>(before: View<F>, f: F, c: char, after: View<F>, name: string, g: F) {
    && after.entry(name) == before.entry(name)
    && (after.text(g) == before.text(g) || (g == f && after.text(g) == before.text(g) + [c]))
  }

  /** f is emptied; no name and no other file changes. */
  ghost predicate Truncates<F>(before: View<F>, f: F, after: View<F>, name: string, g: F) {
    && after.entry(name) == before.entry(name)
    && after.text(g) == if g == f then "" else before.text(g)
  }

  /** No file changes, and what the missing name then leads to is empty. */
  ghost predicate Creates<F>(before: View<F>, made: string, after: View<F>, ok: bool, name: string, g: F) {
    && after.text(g) == before.text(g)
    && (before.entry(name) != Missing ==> after.entry(name) == before.entry(name))
    && (ok && after.entry(made).File? ==> after.text(after.entry(made).id) == "")
  }

  function ViewOf<W, S>(sys: System<W, S>, files: W): View<nat> {
    View(name => sys.resolve(files, name), f => sys.data(files, f))
  }

  ghost predicate MakesEmpty<W, S>(sys: System<W, S>, files: W, made: string, name: string, g: nat) {
    var (after, ok) := sys.mkfile(files, made);
    Creates(ViewOf(sys, files), made, ViewOf(sys, after), ok, name, g)
  }

  ghost predicate FileLaws<W(!new), S(!new)>(sys: System<W, S>) {
    && (forall w: W, f: nat, c: char, name: string, g: nat
          {:trigger Appends(ViewOf(sys, w), f, c, ViewOf(sys, sys.append(w, f, c)), name, g)} ::
          Appends(ViewOf(sys, w), f, c, ViewOf(sys, sys.append(w, f, c)), name, g))
    && (forall w: W, f: nat, named: string, name: string, g: nat
          {:trigger sys.resolve(w, named), Truncates(ViewOf(sys, w), f, ViewOf(sys, sys.truncate(w, f)), name, g)} ::
          sys.resolve(w, named) == File(f) ==> Truncates(ViewOf(sys, w), f, ViewOf(sys, sys.truncate(w, f)), name, g))
    && (forall w: W, made: string, name: string, g: nat {:trigger MakesEmpty(sys, w, made, name, g)} ::
          sys.resolve(w, made) == Missing && |made| <= 255 ==> MakesEmpty(sys, w, made, name, g))
  }

  // ----- what a command does to the file system itself

  /** Along this run, whatever else the command does to the files is allowed. */
  ghost predicate Keeps<W, S>(sys: System<W, S>, allowed: (W, W) -> bool, s: S, src: Source, sink: Sink, env: Env<W>,
      fuel: nat)
    decreases fuel
  {
    if fuel == 0 then true
    else
      match Move(sys, s, src, sink, env)
      case Over(_) => true
      case On(rest, after) =>
        && (sys.step(s).Work? ==> allowed(env.world.files, after.world.files))
        && Keeps(sys, allowed, rest, src, sink, after, fuel - 1)
  }

  function SameText<W, S>(sys: System<W, S>, f: nat): (W, W) -> bool {
    (before, after) => sys.data(after, f) == sys.data(before, f)
  }

  function SameEntry<W, S>(sys: System<W, S>, name: string): (W, W) -> bool {
    (before, after) => sys.resolve(after, name) == sys.resolve(before, name)
  }

  /** The character, unless the file refuses it. */
  function Accepted<W, S>(sys: System<W, S>, files: W, f: nat, c: char): string {
    if sys.data(sys.append(files, f, c), f) == sys.data(files, f) then "" else [c]
  }

  /** What one step leaves in f. */
  function StepStored<W, S>(sys: System<W, S>, s: S, f: nat, env: Env<W>): string {
    match sys.step(s)
    case Putc(c, _) => Accepted(sys, env.world.files, f, c)
    case _ => ""
  }

  /** What a command writes to the file f, without the characters that are refused. */
  function Stored<W, S>(sys: System<W, S>, s: S, src: Source, f: nat, env: Env<W>, fuel: nat): string
    decreases fuel
  {
    if fuel == 0 then ""
    else
      match Move(sys, s, src, ToFile(f), env)
      case Over(_) => ""
      case On(rest, after) => StepStored(sys, s, f, env) + Stored(sys, rest, src, f, after, fuel - 1)
  }

  lemma AppendOne<W(!new), S(!new)>(sys: System<W, S>, files: W, f: nat, c: char)
    requires FileLaws(sys)
    ensures sys.data(sys.append(files, f, c), f) == sys.data(files, f) + Accepted(sys, files, f, c)
  {
    assert Appends(ViewOf(sys, files), f, c, ViewOf(sys, sys.append(files, f, c)), "", f);
    PlusNothing(sys.data(files, f));
  }

  lemma StepGrows<W(!new), S(!new)>(sys: System<W, S>, s: S, src: Source, f: nat, env: Env<W>)
    requires FileLaws(sys) && Move(sys, s, src, ToFile(f), env).On?
    requires var after := Move(sys, s, src, ToFile(f), env).env;
      sys.step(s).Work? ==> SameText(sys, f)(env.world.files, after.world.files)
    ensures var after := Move(sys, s, src, ToFile(f), env).env;
      sys.data(after.world.files, f) == sys.data(env.world.files, f) + StepStored(sys, s, f, env)
  {
    match sys.step(s) {
      case Putc(c, _) => AppendOne(sys, env.world.files, f, c);
      case _ => PlusNothing(sys.data(env.world.files, f));
    }
  }

  /** A command with its output in f, and that does nothing else to f, extends f by just
      what it writes. */
  lemma {:induction false} FileGrows<W(!new), S(!new)>(sys: System<W, S>, s: S, src: Source, f: nat, env: Env<W>,
      fuel: nat)
    requires FileLaws(sys) && Run(sys, s, src, ToFile(f), env, fuel).Some?
    requires Keeps(sys, SameText(sys, f), s, src, ToFile(f), env, fuel)
    ensures sys.data(Run(sys, s, src, ToFile(f), env, fuel).value.env.world.files, f)
      == sys.data(env.world.files, f) + Stored(sys, s, src, f, env, fuel)
    decreases fuel
  {
    hide FileLaws, SameText, StepStored;
    match Move(sys, s, src, ToFile(f), env) {
      case Over(_) => PlusNothing(sys.data(env.world.files, f));
      case On(rest, after) =>
        StepGrows(sys, s, src, f, env);
        FileGrows(sys, rest, src, f, after, fuel - 1);
        var now, later := StepStored(sys, s, f, env), Stored(sys, rest, src, f, after, fuel - 1);
        Associative(sys.data(env.world.files, f), now, later);
    }
  }

  lemma StepKeepsName<W(!new), S(!new)>(sys: System<W, S>, s: S, src: Source, f: nat, name: string, env: Env<W>)
    requires FileLaws(sys) && Move(sys, s, src, ToFile(f), env).On?
    requires var after := Move(sys, s, src, ToFile(f), env).env;
      sys.step(s).Work? ==> SameEntry(sys, name)(env.world.files, after.world.files)
    ensures var after := Move(sys, s, src, ToFile(f), env).env;
      sys.resolve(after.world.files, name) == sys.resolve(env.world.files, name)
  {
    match sys.step(s) {
      case Putc(c, _) =>
        var files := env.world.files;
        assert Appends(ViewOf(sys, files), f, c, ViewOf(sys, sys.append(files, f, c)), name, f);
      case _ =>
    }
  }

  /** And its name still leads to it, when the command leaves the name alone. */
  lemma {:induction false} NameStays<W(!new), S(!new)>(sys: System<W, S>, s: S, src: Source, f: nat, name: string,
      env: Env<W>, fuel: nat)
    requires FileLaws(sys) && Run(sys, s, src, ToFile(f), env, fuel).Some?
    requires Keeps(sys, SameEntry(sys, name), s, src, ToFile(f), env, fuel)
    ensures sys.resolve(Run(sys, s, src, ToFile(f), env, fuel).value.env.world.files, name)
      == sys.resolve(env.world.files, name)
    decreases fuel
  {
    hide FileLaws, SameEntry;
    match Move(sys, s, src, ToFile(f), env) {
      case Over(_) =>
      case On(rest, after) =>
        StepKeepsName(sys, s, src, f, name, env);
        NameStays(sys, rest, src, f, name, after, fuel - 1);
    }
  }

  // ----- stages with redirections

  /** What `>` or `>>` finds in its file before the command writes. */
  function Kept<W, S>(sys: System<W, S>, files: W, name: string, append: bool): string {
    match sys.resolve(files, name)
    case File(f) => if append then sys.data(files, f) else ""
    case _ => ""
  }

  lemma OpenedOutput<W(!new), S(!new)>(sys: System<W, S>, files: W, name: string, append: bool)
    requires FileLaws(sys) && |name| <= 255 && OpenOut(sys, files, Output(name, append)).Opened?
    ensures var o := OpenOut(sys, files, Output(name, append));
      && o.file.Some? && sys.resolve(o.files, name) == File(o.file.value)
      && sys.data(o.files, o.file.value) == Kept(sys, files, name, append)
  {
    var (made, ok) := Created(sys, files, name);
    assert ok && sys.resolve(made, name).File?;
    var f := sys.resolve(made, name).id;
    if sys.resolve(files, name) == Missing {
      assert MakesEmpty(sys, files, name, name, f);
    }
    if !append {
      assert Truncates(ViewOf(sys, made), f, ViewOf(sys, sys.truncate(made, f)), name, f);
    }
  }

  /** The state in which the command of a stage with an opened output starts. */
  function StartEnv<W, S>(sys: System<W, S>, out: Output, world: World<W>): Env<W> {
    WithFiles(Env(world, 0, ""), OpenOut(sys, world.files, out).files)
  }

  /** A stage with its output in a file leaves there what was kept of it and what the
      command wrote, and sends nothing. */
  lemma OutputInFile<W(!new), S(!new)>(sys: System<W, S>, cl: Cmdline, input: Source, piped: bool, world: World<W>,
      fuel: nat, s: S, f: nat)
    requires FileLaws(sys) && cl.items != [] && sys.command(cl.items) == Some(s)
    requires cl.out.Output? && |cl.out.name| <= 255
    requires var o := OpenOut(sys, world.files, cl.out); o.Opened? && o.file == Some(f)
    requires OpenIn(sys, OpenOut(sys, world.files, cl.out).files, cl.inp).Opened?
    requires Stage(sys, cl, input, piped, world, fuel).Some?
    requires
      var src := SourceOf(OpenIn(sys, OpenOut(sys, world.files, cl.out).files, cl.inp).file, input);
      Keeps(sys, SameText(sys, f), s, src, ToFile(f), StartEnv(sys, cl.out, world), fuel)
    ensures
      var src := SourceOf(OpenIn(sys, OpenOut(sys, world.files, cl.out).files, cl.inp).file, input);
      var end := Stage(sys, cl, input, piped, world, fuel).value.env;
      && end.sent == ""
      && sys.data(end.world.files, f) == Kept(sys, world.files, cl.out.name, cl.out.append)
           + Stored(sys, s, src, f, StartEnv(sys, cl.out, world), fuel)
  {
    hide FileLaws;
    var src := SourceOf(OpenIn(sys, OpenOut(sys, world.files, cl.out).files, cl.inp).file, input);
    OpenedOutput(sys, world.files, cl.out.name, cl.out.append);
    assert cl.out == Output(cl.out.name, cl.out.append);
    FileGrows(sys, s, src, f, StartEnv(sys, cl.out, world), fuel);
    StageConfined(sys, cl, input, piped, world, fuel);
  }

  /** `cat < f` shows just what is in f, if there is memory for it. */
  lemma InputFromFile<W(!new), S(!new)>(sys: System<W, S>, alloc: Alloc<W>, cat: CatState -> S, name: string, f: nat,
      input: Source, world: World<W>, fuel: nat)
    requires IsCat(sys, alloc, cat) && AllocKeeps(sys, alloc) && sys.command(["cat"]) == Some(cat(START))
    requires sys.resolve(world.files, name) == File(f) && AllBytes(sys.data(world.files, f))
    requires fuel >= 3 * |sys.data(world.files, f)| + 2
    ensures
      var text := sys.data(world.files, f);
      var end := Stage(sys, Cmdline(["cat"], NoOutput, Input(name)), input, false, world, fuel);
      && end.Some? && end.value.code == 0
      && (Displays(world, text, end.value.env.world) <==> HasMemory(alloc, world.files, 0, 0, |text|))
  {
    assert WithFiles(Env(world, 0, ""), world.files) == Env(world, 0, "");
    CatShows(sys, alloc, cat, FromFile(f), sys.data(world.files, f), world, fuel);
  }

  /** `command > f` and then `cat < f` shows exactly what the command wrote, but for
      characters that f refused. */
  lemma WriteThenRead<W(!new), S(!new)>(sys: System<W, S>, alloc: Alloc<W>, cat: CatState -> S, words: seq<string>,
      name: string, input: Source, world: World<W>, fuel: nat, s: S, f: nat, more: nat)
    requires FileLaws(sys) && words != [] && |name| <= 255 && sys.command(words) == Some(s)
    requires var o := OpenOut(sys, world.files, Output(name, false)); o.Opened? && o.file == Some(f)
    requires Stage(sys, Cmdline(words, Output(name, false), NoInput), input, false, world, fuel).Some?
    requires
      var env := StartEnv(sys, Output(name, false), world);
      && Keeps(sys, SameText(sys, f), s, input, ToFile(f), env, fuel)
      && Keeps(sys, SameEntry(sys, name), s, input, ToFile(f), env, fuel)
    requires IsCat(sys, alloc, cat) && AllocKeeps(sys, alloc) && sys.command(["cat"]) == Some(cat(START))
    requires
      var wrote := Stored(sys, s, input, f, StartEnv(sys, Output(name, false), world), fuel);
      AllBytes(wrote) && more >= 3 * |wrote| + 2
    ensures
      var wrote := Stored(sys, s, input, f, StartEnv(sys, Output(name, false), world), fuel);
      var first := Cmdline(words, Output(name, false), NoInput);
      var between := Stage(sys, first, input, false, world, fuel).value.env.world;
      var end := Stage(sys, Cmdline(["cat"], NoOutput, Input(name)), Keyboard, false, between, more);
      && Unwritten(world.screen, between.screen) && end.Some?
      && (Displays(between, wrote, end.value.env.world) <==> HasMemory(alloc, between.files, 0, 0, |wrote|))
  {
    hide FileLaws, IsCat, AllocKeeps, Keeps, Stored;
    var cl, env := Cmdline(words, Output(name, false), NoInput), StartEnv(sys, Output(name, false), world);
    var wrote := Stored(sys, s, input, f, env, fuel);
    OutputInFile(sys, cl, input, false, world, fuel, s, f);
    OpenedOutput(sys, world.files, name, false);
    NameStays(sys, s, input, f, name, env, fuel);
    StageConfined(sys, cl, input, false, world, fuel);
    PlusNothing(wrote);
    var between := Stage(sys, cl, input, false, world, fuel).value.env.world;
    InputFromFile(sys, alloc, cat, name, f, Keyboard, between, more);
  }
}
