/** Ownership of `.asoundrc`: `rgsp-host/src/routing.rs`, the pre-launch hook, the boot
    hook, and foreign audio managers. Every read, write and removal is one step. */
module Routing {
  import opened Common

  // ---------------------------------------------------------------- the file

  /** `readable`: the content reads as UTF-8 text. */
  datatype File = Absent | Content(body: string, readable: bool)

  const MARKER: string := "# rgsp-cast:"

  const ASOUNDRC_BODY: string :=
    MARKER + " routing playback into the kernel loopback while casting.\n"
    + "# Removed automatically when casting stops.\n"
    + "pcm.!default {\n    type plug\n    slave.pcm \"hw:Loopback,0,0\"\n}\n"

  /** The hook's own copy, one line shorter. */
  const HOOK_BODY: string :=
    MARKER + " routing playback into the kernel loopback while casting.\n"
    + "pcm.!default {\n    type plug\n    slave.pcm \"hw:Loopback,0,0\"\n}\n"

  /** The daemon's test: the file starts with the marker. */
  predicate IsOurs(body: string) {
    MARKER <= body
  }

  /** The hooks' test: some line starts with it. */
  predicate HasMarkerLine(body: string) {
    exists k | 0 <= k <= |body| :: LineStart(body, k) && IsOurs(body[k..])
  }

  predicate LineStart(body: string, k: nat)
    requires k <= |body|
  {
    k == 0 || body[k - 1] == '\n'
  }

  predicate Text(f: File) {
    f.Content? && f.readable
  }

  predicate Ours(f: File) {
    Text(f) && IsOurs(f.body)
  }

  predicate Marked(f: File) {
    f.Content? && HasMarkerLine(f.body)
  }

  // ---------------------------------------------------------------- what each actor does

  /** What `engage` keeps: a foreign text, and nothing else. */
  function Snapshot(f: File): (previous: Option<string>)
    ensures previous.Some? ==> f == Content(previous.value, true) && !IsOurs(previous.value)
  {
    if Text(f) && !IsOurs(f.body) then Some(f.body) else None
  }

  function Restored(previous: Option<string>): File {
    if previous.Some? then Content(previous.value, true) else Absent
  }

  predicate ShouldRestore(f: File, previous: Option<string>) {
    if Text(f) then IsOurs(f.body) else previous.None?
  }

  function Released(f: File, previous: Option<string>): File {
    if ShouldRestore(f, previous) then Restored(previous) else f
  }

  function PreLaunched(f: File, alive: bool): File {
    if alive && (f.Absent? || Marked(f)) then Content(HOOK_BODY, true) else f
  }

  function Booted(f: File, alive: bool): File {
    if Marked(f) && !alive then Absent else f
  }

  /** There, and no line of it the marker's: what both hooks leave alone. */
  predicate Spared(f: File) {
    f.Content? && !HasMarkerLine(f.body)
  }

  /** `sink` is the engaged daemon's snapshot. */
  datatype State = State(file: File, sink: Option<Option<string>>)

  /** `io`: the write or removal goes through. `alive`: what the hook's test of the pid
      file says; it is never wrong about a daemon that is engaged. */
  datatype Action =
    | Engage(io: bool)
    | Release(io: bool)
    | Kill
    | PreLaunch(alive: bool)
    | Boot(alive: bool)
    | Foreign(file: File)

  function Step(s: State, a: Action): Option<State> {
    match a
    case Engage(io) =>
      if s.sink.Some? then None
      else if io then Some(State(Content(ASOUNDRC_BODY, true), Some(Snapshot(s.file))))
      else Some(s)
    case Release(io) =>
      if s.sink.None? then None
      else Some(State(if io then Released(s.file, s.sink.value) else s.file, None))
    case Kill => if s.sink.None? then None else Some(s.(sink := None))
    case PreLaunch(alive) => if s.sink.Some? && !alive then None else Some(s.(file := PreLaunched(s.file, alive)))
    case Boot(alive) => if s.sink.Some? && !alive then None else Some(s.(file := Booted(s.file, alive)))
    case Foreign(f) => if Ours(f) then None else Some(s.(file := f))
  }

  function Exec(s: State, acts: seq<Action>): Option<State> {
    if acts == [] then Some(s)
    else
      match Exec(s, acts[..|acts| - 1])
      case None => None
      case Some(t) => Step(t, acts[|acts| - 1])
  }

  /** Every state some interleaving reaches, from any file and no daemon. */
  ghost predicate Reachable(s: State) {
    exists f: File, acts: seq<Action> :: Exec(State(f, None), acts) == Some(s)
  }

  lemma OurBodies()
    ensures IsOurs(ASOUNDRC_BODY) && IsOurs(HOOK_BODY)
  {
  }

  lemma OursIsMarked(body: string)
    requires IsOurs(body)
    ensures HasMarkerLine(body)
  {
    assert LineStart(body, 0) && body[0..] == body;
  }

  // ---------------------------------------------------------------- ownership

  lemma {:induction false} SnapshotForeign(f: File, acts: seq<Action>)
    requires Exec(State(f, None), acts).Some?
    ensures var s := Exec(State(f, None), acts).value;
            s.sink.Some? && s.sink.value.Some? ==> !IsOurs(s.sink.value.value)
  {
    hide IsOurs, HasMarkerLine, Released, PreLaunched, Booted;
    if acts != [] {
      SnapshotForeign(f, acts[..|acts| - 1]);
    }
  }

  /** The daemon never takes this project's own content for somebody's configuration. */
  lemma SnapshotNeverOurs(s: State)
    requires Reachable(s) && s.sink.Some? && s.sink.value.Some?
    ensures !IsOurs(s.sink.value.value)
  {
    var f, acts :| Exec(State(f, None), acts) == Some(s);
    SnapshotForeign(f, acts);
  }

  /** A release that can write leaves no file of ours behind, whatever kills, hooks and
      foreign writes came before it in any session: a kill cannot latch the route. */
  lemma ReleaseNeverLatches(s: State)
    requires Reachable(s) && Step(s, Release(true)).Some?
    ensures !Ours(Step(s, Release(true)).value.file)
  {
    if s.sink.value.Some? {
      SnapshotNeverOurs(s);
    }
  }

  /** After a kill, boot leaves no file either test calls ours. */
  lemma BootRecovers(s: State)
    requires Step(s, Boot(false)).Some?
    ensures !Marked(Step(s, Boot(false)).value.file) && !Ours(Step(s, Boot(false)).value.file)
  {
    if Ours(s.file) {
      OursIsMarked(s.file.body);
    }
  }

  /** What the hooks may touch: boot a marked file, when no daemon lives; a launch a marked
      one or an absent one, when one does. Every other file stays byte for byte. */
  lemma HooksTouchExactly(s: State, alive: bool)
    requires Step(s, Boot(alive)).Some? && Step(s, PreLaunch(alive)).Some?
    ensures var t := Step(s, Boot(alive)).value;
            t.sink == s.sink && (t.file != s.file <==> !alive && Marked(s.file))
    ensures var t := Step(s, PreLaunch(alive)).value;
            t.sink == s.sink && (t.file != s.file <==> alive && !Spared(s.file) && s.file != Content(HOOK_BODY, true))
  {
    OurBodies();
    OursIsMarked(HOOK_BODY);
    hide HasMarkerLine;
  }

  // ---------------------------------------------------------------- a session

  /** The hooks as they run while a daemon is engaged. */
  predicate Hooks(acts: seq<Action>) {
    forall k | 0 <= k < |acts| :: acts[k] in {PreLaunch(true), Boot(true)}
  }

  /** What any number of hook runs make of a file while a daemon is engaged. */
  function Hooked(f: File, acts: seq<Action>): File {
    if PreLaunch(true) in acts then PreLaunched(f, true) else f
  }

  lemma {:induction false} HooksDo(s: State, acts: seq<Action>)
    requires s.sink.Some? && Hooks(acts)
    ensures Exec(s, acts) == Some(s.(file := Hooked(s.file, acts)))
  {
    if acts != [] {
      var front, a := acts[..|acts| - 1], acts[|acts| - 1];
      assert acts == front + [a];
      HooksDo(s, front);
      assert PreLaunch(true) in acts <==> PreLaunch(true) in front || a == PreLaunch(true);
      PreLaunchTwice(s.file);
      hide HasMarkerLine, IsOurs, PreLaunched;
      assert a == Boot(true) ==> Booted(Hooked(s.file, front), true) == Hooked(s.file, front);
    }
  }

  lemma PreLaunchTwice(f: File)
    ensures PreLaunched(PreLaunched(f, true), true) == PreLaunched(f, true)
  {
    OurBodies();
    OursIsMarked(HOOK_BODY);
  }

  lemma {:induction false} ExecConcat(s: State, a: seq<Action>, b: seq<Action>)
    requires Exec(s, a).Some?
    ensures Exec(s, a + b) == Exec(Exec(s, a).value, b)
    decreases |b|
  {
    if b == [] {
      assert a + b == a;
    } else {
      ExecConcat(s, a, b[..|b| - 1]);
      assert (a + b)[..|a + b| - 1] == a + b[..|b| - 1];
    }
  }

  /** Engage, any hook runs, release: the file found at engage is back byte for byte
      exactly when it was a foreign text or there was none. One of ours is removed, and one
      that does not read as text is lost. */
  lemma SessionRestores(s: State, acts: seq<Action>)
    requires s.sink.None? && Hooks(acts)
    ensures var end := Exec(s, [Engage(true)] + acts + [Release(true)]);
            && end.Some?
            && end.value.file == (if Snapshot(s.file).Some? then s.file else Absent)
            && (end.value.file == s.file <==> Snapshot(s.file).Some? || s.file.Absent?)
  {
    var engaged := State(Content(ASOUNDRC_BODY, true), Some(Snapshot(s.file)));
    var all := [Engage(true)] + acts + [Release(true)];
    OurBodies();
    OursIsMarked(ASOUNDRC_BODY);
    OneStep(s, Engage(true));
    HooksDo(engaged, acts);
    ExecConcat(s, [Engage(true)], acts);
    assert all[..|all| - 1] == [Engage(true)] + acts;
  }

  lemma OneStep(s: State, a: Action)
    ensures Exec(s, [a]) == Step(s, a)
  {
    var none: seq<Action> := [];
    assert [a][..0] == none;
    assert Exec(s, none) == Some(s);
  }

  /** What a foreign write during a cast leaves after the release: it is there unless a
      launch replaced it (it was a removal, or has a marker line), and then what is restored
      is it only by coincidence; and an unreadable one is removed when nothing had been
      snapshotted. */
  lemma ForeignWriteSurvives(s: State, f: File, acts: seq<Action>)
    requires s.sink.Some? && !Ours(f) && Hooks(acts)
    ensures var end := Exec(s, [Foreign(f)] + acts + [Release(true)]);
            end.Some? &&
            (end.value.file == f <==>
             if PreLaunch(true) in acts && (f.Absent? || Marked(f)) then Restored(s.sink.value) == f
             else f.Absent? || Text(f) || s.sink.value.Some?)
  {
    var all := [Foreign(f)] + acts + [Release(true)];
    OurBodies();
    OneStep(s, Foreign(f));
    HooksDo(s.(file := f), acts);
    ExecConcat(s, [Foreign(f)], acts);
    assert all[..|all| - 1] == [Foreign(f)] + acts;
  }

  /** The daemon's test and the hooks' are not the same: a launch overwrites a foreign text
      that only quotes the marker on a later line. */
  lemma TestsDisagree()
    ensures var f := Content("defaults\n# rgsp-cast: off\n", true);
            !Ours(f) && Marked(f) && PreLaunched(f, true) != f
  {
    var body := "defaults\n# rgsp-cast: off\n";
    assert LineStart(body, 9);
    assert body[9..] == "# rgsp-cast: off\n";
    assert IsOurs(body[9..]);
    assert HOOK_BODY[0] == '#';
  }

  /** A launch leaves a foreign text alone exactly when no line of it starts with the marker. */
  lemma LaunchSparesExactly(f: File)
    requires Text(f) && !Ours(f)
    ensures PreLaunched(f, true) == f <==> !Marked(f)
  {
    OurBodies();
  }

  // ---------------------------------------------------------------- the actors

  class Disk {
    var asoundrc: File

    constructor (f: File)
      ensures asoundrc == f
    {
      asoundrc := f;
    }

    /** `fs::write`, `fs::remove_file`: all or nothing. */
    method Put(f: File) returns (ok: bool)
      modifies this
      ensures asoundrc == if ok then f else old(asoundrc)
    {
      ok := *;
      if ok {
        asoundrc := f;
      }
    }

    /** `pre-launch.d/10-rgsp-route.sh`. */
    method PreLaunchHook(alive: bool) returns (io: bool)
      modifies this
      ensures asoundrc == if io then PreLaunched(old(asoundrc), alive) else old(asoundrc)
      ensures !alive || Spared(old(asoundrc)) ==> asoundrc == old(asoundrc)
      ensures alive && io && !Spared(old(asoundrc)) ==> asoundrc == Content(HOOK_BODY, true)
    {
      if !alive {
        return true;
      }
      if asoundrc.Content? {
        if !HasMarkerLine(asoundrc.body) {
          return true;
        }
      }
      io := Put(Content(HOOK_BODY, true));
    }

    /** The crash recovery of `boot.d/10-rgsp-aloop.sh`. */
    method BootHook(alive: bool) returns (io: bool)
      modifies this
      ensures asoundrc == if io then Booted(old(asoundrc), alive) else old(asoundrc)
      ensures alive || !Marked(old(asoundrc)) ==> asoundrc == old(asoundrc)
      ensures !alive && io && Marked(old(asoundrc)) ==> asoundrc == Absent
    {
      io := true;
      if asoundrc.Content? && HasMarkerLine(asoundrc.body) {
        if !alive {
          io := Put(Absent);
        }
      }
    }
  }

  class CastSink {
    const disk: Disk
    const previous: Option<string>

    constructor (d: Disk, snapshot: Option<string>)
      ensures disk == d && previous == snapshot
    {
      disk, previous := d, snapshot;
    }

    /** An engaged daemon and its disk, as the machine's state. */
    ghost function View(): State
      reads disk
    {
      State(disk.asoundrc, Some(previous))
    }

    method Release() returns (io: bool)
      modifies disk
      ensures Some(State(disk.asoundrc, None)) == Step(old(View()), Action.Release(io))
    {
      var shouldRestore;
      if Text(disk.asoundrc) {
        shouldRestore := IsOurs(disk.asoundrc.body);
      } else {
        shouldRestore := previous.None?;
      }
      io := true;
      if shouldRestore {
        if previous.Some? {
          io := disk.Put(Content(previous.value, true));
        } else {
          io := disk.Put(Absent);
        }
      }
    }
  }

  method EngageSink(disk: Disk) returns (sink: CastSink?)
    modifies disk
    ensures sink != null ==> fresh(sink) && sink.disk == disk
                             && Some(sink.View()) == Step(State(old(disk.asoundrc), None), Engage(true))
    ensures sink != null ==>
              && disk.asoundrc.Content? && "# rgsp-cast:" <= disk.asoundrc.body && disk.asoundrc.body == ASOUNDRC_BODY
              && sink.previous == match old(disk.asoundrc)
                                  case Absent => None
                                  case Content(body, readable) =>
                                    if readable && !("# rgsp-cast:" <= body) then Some(body) else None
    ensures sink == null ==> disk.asoundrc == old(disk.asoundrc)
  {
    var previous := None;
    if Text(disk.asoundrc) && !IsOurs(disk.asoundrc.body) {
      previous := Some(disk.asoundrc.body);
    }
    var ok := disk.Put(Content(ASOUNDRC_BODY, true));
    if !ok {
      return null;
    }
    sink := new CastSink(disk, previous);
  }
}
