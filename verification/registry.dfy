/** `updateRegistry`: the apply sequence over the policy key
    `HKCU\Software\Policies\Microsoft\Windows\Explorer`, as a step-by-step state
    machine. The key's values are a map; whether each registry call (and the backup
    export, and the working-directory lookup) fails is an input. */
module Registry {

  /** The two values the program creates and removes again. */
  const LayoutFileValue := "StartLayoutFile"
  const LockValue := "LockedStartLayout"
  /** Appended to the working directory to name the layout file. */
  const LayoutFileSuffix := "\\PartialStartLayout.xml"

  datatype Value = ExpandString(text: string) | DWord(number: int)

  type Store = map<string, Value>

  /** The operations that can fail. */
  datatype Op =
    | ExportBackup | CreateKey | ListValues | GetWorkingDir
    | SetLayoutFile | SetLock | ClearLock | DeleteLayoutFile | DeleteLock

  /** Everything the run depends on: the key's values, the names `ReadValueNames`
      lists, the `-y` flag, the line typed at the prompt (without its newline; empty
      at end of input), the working directory and the operations that fail. */
  datatype Env = Env(store: Store, names: seq<string>, yes: bool, line: string, wd: string, failing: set<Op>)

  // ---- the answer `fmt.Scanln` stores ----

  /** The characters `fmt` treats as spaces. A `\r` right before the newline goes
      with the newline, which is outside `line`; elsewhere it is a space too. */
  predicate IsBlank(c: char) {
    || ('\t' <= c <= '\r') || c == ' ' || c == '\U{85}' || c == '\U{A0}' || c == '\U{1680}'
    || ('\U{2000}' <= c <= '\U{200A}') || c == '\U{2028}' || c == '\U{2029}' || c == '\U{202F}'
    || c == '\U{205F}' || c == '\U{3000}'
  }

  /** The first position from `i` on that is not blank, or the end of the line. */
  function SkipBlanks(line: string, i: nat): (j: nat)
    requires i <= |line|
    ensures i <= j <= |line|
    ensures forall k :: i <= k < j ==> IsBlank(line[k])
    ensures j == |line| || !IsBlank(line[j])
    decreases |line| - i
  {
    if i == |line| || !IsBlank(line[i]) then i else SkipBlanks(line, i + 1)
  }

  /** The first blank position from `i` on, or the end of the line. */
  function TokenEnd(line: string, i: nat): (j: nat)
    requires i <= |line|
    ensures i <= j <= |line|
    ensures forall k :: i <= k < j ==> !IsBlank(line[k])
    ensures j == |line| || IsBlank(line[j])
    decreases |line| - i
  {
    if i == |line| || IsBlank(line[i]) then i else TokenEnd(line, i + 1)
  }

  /** What `fmt.Scanln(&proceed)` leaves in `proceed`: the first blank-separated
      token of the line, or "" when the line is blank or input has ended. Text after
      the token only makes `Scanln` return an error, which the code ignores. */
  function ScannedAnswer(line: string): (r: string)
    ensures forall k :: 0 <= k < |r| ==> !IsBlank(r[k])
    ensures r == [] <==> forall k :: 0 <= k < |line| ==> IsBlank(line[k])
  {
    var i := SkipBlanks(line, 0);
    line[i..TokenEnd(line, i)]
  }

  /** Leading blanks, then a token, then nothing or a blank and anything: the
      stored answer is exactly that token. */
  lemma ScannedAnswerOf(pre: string, token: string, post: string)
    requires forall k :: 0 <= k < |pre| ==> IsBlank(pre[k])
    requires |token| > 0 && forall k :: 0 <= k < |token| ==> !IsBlank(token[k])
    requires post == [] || IsBlank(post[0])
    ensures ScannedAnswer(pre + token + post) == token
  {
    var line := pre + token + post;
    var n := |pre| + |token|;
    assert forall k :: 0 <= k < |pre| ==> line[k] == pre[k];
    assert forall k :: |pre| <= k < n ==> line[k] == token[k - |pre|];
    assert post != [] ==> line[n] == post[0];
    assert !IsBlank(line[|pre|]);
    var i := SkipBlanks(line, 0);
    assert i == |pre|;
    var j := TokenEnd(line, i);
    assert j == n;
    assert line[i..j] == token;
  }

  /** A leading blank, a trailing carriage return or words after the "y" still
      confirm. */
  lemma ScannedAnswerExamples()
    ensures ScannedAnswer(" y") == "y"
    ensures ScannedAnswer("y\r") == "y"
    ensures ScannedAnswer("y please") == "y"
  {
    ScannedAnswerOf(" ", "y", "");
    assert " " + "y" + "" == " y";
    ScannedAnswerOf("", "y", "\r");
    assert "" + "y" + "\r" == "y\r";
    ScannedAnswerOf("", "y", " please");
    assert "" + "y" + " please" == "y please";
  }

  /** A capital "Y" is not the answer "y", and an empty line stores nothing. */
  lemma ScannedAnswerRejects()
    ensures ScannedAnswer("Y") == "Y" != "y"
    ensures ScannedAnswer("") == ""
  {
    ScannedAnswerOf("", "Y", "");
    assert "" + "Y" + "" == "Y";
  }

  /** What the run shows the user, or does outside the key: the backup export (and
      whether it worked), the collision warning, the prompt, and each explorer stop
      together with the values the restarted shell sees. */
  datatype Event = BackupExported(ok: bool) | CollisionWarning | Prompt | ExplorerStopped(seen: Store)

  /** The `log.Fatal` calls. */
  datatype Reason = KeyNotCreated | ValuesNotListed | NoWorkingDir | SetFailed | UnlockFailed | DeleteFailed

  /** Where the run is: the next thing to do, or how it ended. */
  datatype Phase =
    | Backup | Open | List | Confirm | WorkingDir | Lock | FirstStop | Unlock | SecondStop | Remove
    | Cancelled | Failed(reason: Reason) | Finished

  datatype State = State(phase: Phase, store: Store, wd: string, events: seq<Event>)

  predicate Terminal(p: Phase) {
    p.Cancelled? || p.Failed? || p == Finished
  }

  /** Steps left before the run ends. */
  function Rank(p: Phase): nat {
    match p
    case Backup => 10
    case Open => 9
    case List => 8
    case Confirm => 7
    case WorkingDir => 6
    case Lock => 5
    case FirstStop => 4
    case Unlock => 3
    case SecondStop => 2
    case Remove => 1
    case _ => 0
  }

  /** `find`: a linear scan for `val`. */
  function Find(slice: seq<string>, val: string): (found: bool)
    ensures found <==> val in slice
  {
    if |slice| == 0 then false
    else if slice[0] == val then true
    else Find(slice[1..], val)
  }

  /** The values other than the program's two are the same in both stores. */
  ghost predicate OthersKept(a: Store, b: Store) {
    forall k :: k != LayoutFileValue && k != LockValue ==>
      (k in a <==> k in b) && (k in a && k in b ==> a[k] == b[k])
  }

  /** A write that takes effect unless the operation fails. */
  function Write(env: Env, op: Op, st: Store, name: string, v: Value): (r: Store)
    ensures op !in env.failing ==> name in r && r[name] == v
    ensures op in env.failing ==> r == st
    ensures forall k :: k != name ==> (k in r <==> k in st) && (k in st ==> r[k] == st[k])
  {
    if op in env.failing then st else st[name := v]
  }

  /** A deletion that takes effect unless the operation fails. */
  function Delete(env: Env, op: Op, st: Store, name: string): (r: Store)
    ensures op !in env.failing ==> name !in r
    ensures op in env.failing ==> r == st
    ensures forall k :: k != name ==> (k in r <==> k in st) && (k in st ==> r[k] == st[k])
  {
    if op in env.failing then st else st - {name}
  }

  /** One step of `updateRegistry`. */
  function Step(env: Env, s: State): (r: State)
    ensures Terminal(s.phase) ==> r == s
    ensures !Terminal(s.phase) ==> Rank(r.phase) < Rank(s.phase)
    ensures OthersKept(s.store, r.store)
    ensures s.events <= r.events
  {
    match s.phase
    case Backup =>
      s.(phase := Open, events := s.events + [BackupExported(ExportBackup !in env.failing)])
    case Open =>
      if CreateKey in env.failing then s.(phase := Failed(KeyNotCreated)) else s.(phase := List)
    case List =>
      if ListValues in env.failing then s.(phase := Failed(ValuesNotListed))
      else if Find(env.names, LayoutFileValue) || Find(env.names, LockValue) then
        s.(phase := Confirm, events := s.events + [CollisionWarning])
      else s.(phase := Confirm)
    case Confirm =>
      if env.yes then s.(phase := WorkingDir)
      else if ScannedAnswer(env.line) == "y" then s.(phase := WorkingDir, events := s.events + [Prompt])
      else s.(phase := Cancelled, events := s.events + [Prompt])
    case WorkingDir =>
      if GetWorkingDir in env.failing then s.(phase := Failed(NoWorkingDir))
      else s.(phase := Lock, wd := env.wd)
    case Lock =>
      // Both writes are attempted before either error is looked at.
      var st := Write(env, SetLayoutFile, s.store, LayoutFileValue, ExpandString(s.wd + LayoutFileSuffix));
      var st' := Write(env, SetLock, st, LockValue, DWord(1));
      if SetLayoutFile in env.failing || SetLock in env.failing then s.(phase := Failed(SetFailed), store := st')
      else s.(phase := FirstStop, store := st')
    case FirstStop =>
      s.(phase := Unlock, events := s.events + [ExplorerStopped(s.store)])
    case Unlock =>
      if ClearLock in env.failing then s.(phase := Failed(UnlockFailed))
      else s.(phase := SecondStop, store := s.store[LockValue := DWord(0)])
    case SecondStop =>
      s.(phase := Remove, events := s.events + [ExplorerStopped(s.store)])
    case Remove =>
      // Both deletions are attempted before either error is looked at.
      var st := Delete(env, DeleteLock, Delete(env, DeleteLayoutFile, s.store, LayoutFileValue), LockValue);
      if DeleteLayoutFile in env.failing || DeleteLock in env.failing then s.(phase := Failed(DeleteFailed), store := st)
      else s.(phase := Finished, store := st)
    case _ => s
  }

  /** Steps until the run ends. */
  function Run(env: Env, s: State): (r: State)
    ensures Terminal(r.phase)
    ensures OthersKept(s.store, r.store)
    ensures s.events <= r.events
    decreases Rank(s.phase)
  {
    if Terminal(s.phase) then s else Run(env, Step(env, s))
  }

  /** The whole of `updateRegistry`: it ends cancelled, failed or finished, and no
      value other than the program's two is created, changed or removed. */
  function Apply(env: Env): (r: State)
    ensures Terminal(r.phase)
    ensures OthersKept(env.store, r.store)
  {
    Run(env, State(Backup, env.store, "", []))
  }

  // ---- walking the sequence ----

  /** The state in which the run reaches the confirmation step: the backup has
      been exported (or not) and the collision warning logged if either name is
      listed. */
  function AtConfirm(env: Env): State {
    var collision := Find(env.names, LayoutFileValue) || Find(env.names, LockValue);
    State(Confirm, env.store, "",
          [BackupExported(ExportBackup !in env.failing)] + (if collision then [CollisionWarning] else []))
  }

  /** The run reaches the confirmation step unless creating or listing the key fails. */
  lemma ReachConfirm(env: Env)
    ensures CreateKey in env.failing ==> Apply(env).phase == Failed(KeyNotCreated) && Apply(env).store == env.store
    ensures CreateKey !in env.failing && ListValues in env.failing ==>
              Apply(env).phase == Failed(ValuesNotListed) && Apply(env).store == env.store
    ensures CreateKey !in env.failing && ListValues !in env.failing ==> Apply(env) == Run(env, AtConfirm(env))
  {
    var s0 := State(Backup, env.store, "", []);
    var s1 := Step(env, s0);
    var s2 := Step(env, s1);
    assert Run(env, s0) == Run(env, s1) == Run(env, s2);
    if CreateKey !in env.failing && ListValues !in env.failing {
      assert [] + [BackupExported(ExportBackup !in env.failing)] == [BackupExported(ExportBackup !in env.failing)];
      assert Step(env, s2) == AtConfirm(env);
      assert Run(env, s2) == Run(env, Step(env, s2));
    } else if CreateKey !in env.failing {
      var s3 := Step(env, s2);
      assert s2.phase == List && s2.store == env.store;
      assert s3.phase == Failed(ValuesNotListed) && s3.store == env.store;
      assert Run(env, s2) == Run(env, s3) == s3;
    }
  }

  /** The confirmation step: with `-y` or the stored answer "y" the run goes on to look
      up the working directory, otherwise it is cancelled. */
  lemma PastConfirm(env: Env)
    requires CreateKey !in env.failing && ListValues !in env.failing
    ensures var c := Step(env, AtConfirm(env));
            && Apply(env) == Run(env, c)
            && c.store == env.store
            && c.events == AtConfirm(env).events + (if env.yes then [] else [Prompt])
            && (env.yes || ScannedAnswer(env.line) == "y" ==> c.phase == WorkingDir)
            && (!env.yes && ScannedAnswer(env.line) != "y" ==> c.phase == Cancelled)
  {
    ReachConfirm(env);
    var s := AtConfirm(env);
    assert Run(env, s) == Run(env, Step(env, s));
    if env.yes {
      assert s.events + [] == s.events;
    }
  }

  /** After a positive confirmation, the rest of the sequence from the working
      directory on. */
  lemma FromWorkingDir(env: Env, s: State)
    requires s.phase == WorkingDir
    ensures GetWorkingDir in env.failing ==> Run(env, s) == s.(phase := Failed(NoWorkingDir))
    ensures GetWorkingDir !in env.failing ==>
              var st := Write(env, SetLock, Write(env, SetLayoutFile, s.store, LayoutFileValue,
                                                  ExpandString(env.wd + LayoutFileSuffix)), LockValue, DWord(1));
              && ((SetLayoutFile in env.failing || SetLock in env.failing) ==>
                    Run(env, s) == State(Failed(SetFailed), st, env.wd, s.events))
              && ((SetLayoutFile !in env.failing && SetLock !in env.failing) ==>
                    Run(env, s) == Run(env, State(FirstStop, st, env.wd, s.events)))
  {
    var s1 := Step(env, s);
    if GetWorkingDir !in env.failing {
      var s2 := Step(env, s1);
      assert Run(env, s) == Run(env, s1) == Run(env, s2);
    }
  }

  /** From the first explorer stop to the end. */
  lemma FromFirstStop(env: Env, s: State)
    requires s.phase == FirstStop
    ensures ClearLock in env.failing ==>
              Run(env, s) == State(Failed(UnlockFailed), s.store, s.wd, s.events + [ExplorerStopped(s.store)])
    ensures ClearLock !in env.failing ==>
              var unlocked := s.store[LockValue := DWord(0)];
              var st := Delete(env, DeleteLock, Delete(env, DeleteLayoutFile, unlocked, LayoutFileValue), LockValue);
              var events := s.events + [ExplorerStopped(s.store), ExplorerStopped(unlocked)];
              && ((DeleteLayoutFile in env.failing || DeleteLock in env.failing) ==>
                    Run(env, s) == State(Failed(DeleteFailed), st, s.wd, events))
              && ((DeleteLayoutFile !in env.failing && DeleteLock !in env.failing) ==>
                    Run(env, s) == State(Finished, st, s.wd, events))
  {
    var s1 := Step(env, s);
    var s2 := Step(env, s1);
    if ClearLock !in env.failing {
      var s3 := Step(env, s2);
      var s4 := Step(env, s3);
      assert Run(env, s) == Run(env, s1) == Run(env, s2) == Run(env, s3) == Run(env, s4);
    } else {
      assert Run(env, s) == Run(env, s1) == Run(env, s2);
    }
  }

  // ---- properties ----

  /** The collision warning is logged iff the listing contains either value name;
      when the listing is the key's values, iff either value exists. The warning
      never stops the run. */
  lemma CollisionWarningIff(env: Env)
    requires CreateKey !in env.failing && ListValues !in env.failing
    ensures CollisionWarning in Apply(env).events <==> LayoutFileValue in env.names || LockValue in env.names
    ensures (forall n :: n in env.names <==> n in env.store) ==>
              (CollisionWarning in Apply(env).events <==> LayoutFileValue in env.store || LockValue in env.store)
  {
    PastConfirm(env);
    var s := AtConfirm(env);
    var c := Step(env, s);
    var collision := Find(env.names, LayoutFileValue) || Find(env.names, LockValue);
    if collision {
      assert s.events[1] == CollisionWarning;
      assert c.events[1] == CollisionWarning;
    } else {
      assert CollisionWarning !in c.events;
      NoCollisionWarningAfter(env, c);
    }
  }

  /** Later steps log no collision warning. */
  lemma {:induction false} NoCollisionWarningAfter(env: Env, s: State)
    requires s.phase != Backup && s.phase != Open && s.phase != List
    requires CollisionWarning !in s.events
    ensures CollisionWarning !in Run(env, s).events
    decreases Rank(s.phase)
  {
    if !Terminal(s.phase) {
      NoCollisionWarningAfter(env, Step(env, s));
    }
  }

  /** The run is cancelled iff it gets to the prompt (the key was created and
      listed, `-y` not given) and the token `Scanln` stores is anything but exactly
      "y"; a cancelled run changes no value of the key. */
  lemma CancelIff(env: Env)
    ensures Apply(env).phase == Cancelled <==>
              CreateKey !in env.failing && ListValues !in env.failing && !env.yes && ScannedAnswer(env.line) != "y"
    ensures Apply(env).phase == Cancelled ==> Apply(env).store == env.store
  {
    ReachConfirm(env);
    if CreateKey !in env.failing && ListValues !in env.failing {
      PastConfirm(env);
      var c := Step(env, AtConfirm(env));
      if env.yes || ScannedAnswer(env.line) == "y" {
        ProceedsPastConfirm(env, c);
      }
    }
  }

  /** Once past the prompt, the run is never cancelled. */
  lemma {:induction false} ProceedsPastConfirm(env: Env, s: State)
    requires Rank(s.phase) <= Rank(WorkingDir) && s.phase != Cancelled
    ensures Run(env, s).phase != Cancelled
    decreases Rank(s.phase)
  {
    if !Terminal(s.phase) {
      ProceedsPastConfirm(env, Step(env, s));
    }
  }

  /** Every operation except the backup export must succeed, and the user must
      confirm, for the run to finish. */
  lemma SuccessIff(env: Env)
    ensures Apply(env).phase == Finished <==>
              && CreateKey !in env.failing && ListValues !in env.failing && GetWorkingDir !in env.failing
              && SetLayoutFile !in env.failing && SetLock !in env.failing && ClearLock !in env.failing
              && DeleteLayoutFile !in env.failing && DeleteLock !in env.failing
              && (env.yes || ScannedAnswer(env.line) == "y")
  {
    ReachConfirm(env);
    if CreateKey !in env.failing && ListValues !in env.failing {
      PastConfirm(env);
      var c := Step(env, AtConfirm(env));
      if env.yes || ScannedAnswer(env.line) == "y" {
        FromWorkingDir(env, c);
        if GetWorkingDir !in env.failing && SetLayoutFile !in env.failing && SetLock !in env.failing {
          var locked := Write(env, SetLock, Write(env, SetLayoutFile, c.store, LayoutFileValue,
                                                ExpandString(env.wd + LayoutFileSuffix)), LockValue, DWord(1));
          FromFirstStop(env, State(FirstStop, locked, env.wd, c.events));
        }
      }
    }
  }

  /** On success the shell is stopped twice: the first time it sees the layout
      file's path and the lock set to 1, the second time the lock cleared to 0;
      afterwards both values are gone and nothing else has changed. */
  lemma SuccessSequence(env: Env)
    requires Apply(env).phase == Finished
    ensures var locked := env.store[LayoutFileValue := ExpandString(env.wd + LayoutFileSuffix)][LockValue := DWord(1)];
            var unlocked := locked[LockValue := DWord(0)];
            var collision := LayoutFileValue in env.names || LockValue in env.names;
            && Apply(env).events ==
                 [BackupExported(ExportBackup !in env.failing)]
                 + (if collision then [CollisionWarning] else [])
                 + (if env.yes then [] else [Prompt])
                 + [ExplorerStopped(locked), ExplorerStopped(unlocked)]
            && Apply(env).store == env.store - {LayoutFileValue, LockValue}
  {
    SuccessIff(env);
    PastConfirm(env);
    var c := Step(env, AtConfirm(env));
    FromWorkingDir(env, c);
    var locked := env.store[LayoutFileValue := ExpandString(env.wd + LayoutFileSuffix)][LockValue := DWord(1)];
    FromFirstStop(env, State(FirstStop, locked, env.wd, c.events));
    assert locked[LockValue := DWord(0)] - {LayoutFileValue} - {LockValue} == env.store - {LayoutFileValue, LockValue};
  }

  /** A failed backup export is only logged: the run ends the same way, with the
      same values, as when the export works. */
  lemma BackupFailureOnlyLogged(env: Env)
    ensures var failed := env.(failing := env.failing + {ExportBackup});
            Apply(failed).phase == Apply(env).phase && Apply(failed).store == Apply(env).store
  {
    var failed := env.(failing := env.failing + {ExportBackup});
    var a := Step(env, State(Backup, env.store, "", []));
    var b := Step(failed, State(Backup, env.store, "", []));
    SameRunDespiteBackup(env, failed, a, b);
  }

  /** Two environments that differ only in whether the export fails run alike once
      the export is behind them. */
  lemma {:induction false} SameRunDespiteBackup(env: Env, env': Env, s: State, s': State)
    requires env'.store == env.store && env'.names == env.names && env'.yes == env.yes
    requires env'.line == env.line && env'.wd == env.wd
    requires forall op :: op != ExportBackup ==> (op in env.failing <==> op in env'.failing)
    requires s.phase != Backup && s'.phase == s.phase && s'.store == s.store && s'.wd == s.wd
    ensures Run(env', s').phase == Run(env, s).phase && Run(env', s').store == Run(env, s).store
    decreases Rank(s.phase)
  {
    if !Terminal(s.phase) {
      SameRunDespiteBackup(env, env', Step(env, s), Step(env', s'));
    }
  }

  /** A failed write of either value is fatal, but the other write has already
      been attempted: the lock can be left at 1 with no layout file. */
  lemma PartialWriteIsKept(env: Env)
    requires CreateKey !in env.failing && ListValues !in env.failing && GetWorkingDir !in env.failing
    requires env.yes && SetLayoutFile in env.failing && SetLock !in env.failing
    ensures Apply(env).phase == Failed(SetFailed)
    ensures Apply(env).store == env.store[LockValue := DWord(1)]
  {
    PastConfirm(env);
    FromWorkingDir(env, Step(env, AtConfirm(env)));
  }
}
