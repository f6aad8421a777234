/**
  The reconciliation loop of `cmd_merge` (pman.py:180-195): walk the second vault's names
  in `list()` order and, per name, add it, leave it, pull the second vault's record or
  skip it, printing one line per add, pull or skip. The printed lines become the action
  log returned by `Merge`; an exception raised inside the loop ends it and becomes the
  returned status.
 */
module Merging {
  import opened Text
  import opened VaultStore

  /** One printed line of the merge. */
  datatype Action =
    | Add(name: string)                                   // add v2: <name>
    | Pull(name: string, local: string, remote: string)   // pull v2: <name> [v1=<local>, <remote>]
    | Skip(name: string, local: string, remote: string)   // skip v2: <name> [v1=<local>, <remote>]

  /** The exceptions the loop body can raise. */
  datatype MergeError =
    | TypeError               // a call to `set` whose arguments its signature rejects
    | MissingField(field: string)   // KeyError: a record without `modified`

  /** `Normal` while no exception has been raised; `Raised` ends the loop. */
  datatype Status = Normal | Raised(name: string, error: MergeError)

  /** The first vault's entries, the lines printed so far, and whether the loop was aborted. */
  datatype State = State(entries: Entries, log: seq<Action>, status: Status)

  /**
    One iteration of the loop, for the name `key` of the second vault: it keeps the names
    of the first vault, prints at most one line (about `key`), and does nothing once an
    exception has been raised.
   */
  function Step(st: State, source: Entries, key: string, now: string): (r: State)
    requires key in source
    ensures r.entries.Keys == st.entries.Keys
    ensures r.log == st.log || (|r.log| == |st.log| + 1 && r.log[..|st.log|] == st.log && r.log[|st.log|].name == key)
    ensures st.status.Raised? ==> r == st
  {
    if st.status.Raised? then st
    else if key !in st.entries then
      // `v1.set(key, v2.get(key))` passes the record positionally: TypeError after the print
      st.(log := st.log + [Add(key)], status := Raised(key, TypeError))
    else
      var local, remote := st.entries[key], source[key];
      if local == remote then st
      else if Modified !in local || Modified !in remote then
        st.(status := Raised(key, MissingField(Modified)))
      else if Less(local[Modified], remote[Modified]) then
        var printed := st.(log := st.log + [Pull(key, local[Modified], remote[Modified])]);
        if IsKeywordData(remote) then
          printed.(entries := st.entries[key := SetRecord(st.entries, key, remote, now)])
        else
          // `v1.set(key, **v2_cred)` with a field named `self` or `credname`
          printed.(status := Raised(key, TypeError))
      else
        st.(log := st.log + [Skip(key, local[Modified], remote[Modified])])
  }

  /** The loop run over `keys`, starting from the first vault's entries `local`: at most one line per name. */
  function Run(local: Entries, source: Entries, keys: seq<string>, now: string): (r: State)
    requires forall k :: k in keys ==> k in source
    ensures |r.log| <= |keys|
  {
    if keys == [] then State(local, [], Normal)
    else Step(Run(local, source, keys[..|keys| - 1], now), source, keys[|keys| - 1], now)
  }

  /**
    `cmd_merge`'s loop: `v1` is updated in place, `v2` is only read, and the printed lines
    and the exception (if any) are returned.
   */
  method Merge(v1: Vault, v2: Vault, now: string) returns (log: seq<Action>, status: Status)
    requires v1 != v2
    modifies v1
    ensures v2.entries == old(v2.entries)
    ensures State(v1.entries, log, status) == Run(old(v1.entries), v2.entries, v2.List(), now)
  {
    var keys := v2.List();
    log, status := [], Normal;
    var i := 0;
    while i < |keys| && status.Normal?
      invariant 0 <= i <= |keys|
      invariant State(v1.entries, log, status) == Run(old(v1.entries), v2.entries, keys[..i], now)
    {
      var key := keys[i];
      ghost var before := State(v1.entries, log, status);
      RunExtend(old(v1.entries), v2.entries, keys, i, now);
      if !v1.Contains(key) {
        log := log + [Add(key)];
        status := Raised(key, TypeError);
      } else {
        var local := v1.Get(key).value;
        var remote := v2.Get(key).value;
        if local == remote {
        } else if Modified !in local || Modified !in remote {
          status := Raised(key, MissingField(Modified));
        } else if Less(local[Modified], remote[Modified]) {
          log := log + [Pull(key, local[Modified], remote[Modified])];
          if IsKeywordData(remote) {
            v1.Set(key, remote, now);
          } else {
            status := Raised(key, TypeError);
          }
        } else {
          log := log + [Skip(key, local[Modified], remote[Modified])];
        }
      }
      assert State(v1.entries, log, status) == Step(before, v2.entries, key, now);
      i := i + 1;
    }
    if i < |keys| {
      RunStopsWhenRaised(old(v1.entries), v2.entries, keys, i, now);
    } else {
      assert keys[..i] == keys;
    }
  }

  // ---------------------------------------------------------------------------
  // Reference definition: what each name should come to, judged against the
  // first vault as it was before the loop.
  // ---------------------------------------------------------------------------

  datatype Decision = Identical | MissingModified | PullRemote | KeepLocal

  /** How the loop treats a name present in both vaults. */
  function Decide(local: Record, remote: Record): Decision
  {
    if local == remote then Identical
    else if Modified !in local || Modified !in remote then MissingModified
    else if Less(local[Modified], remote[Modified]) then PullRemote
    else KeepLocal
  }

  /** The line printed for `key`, if any. */
  function ActionFor(local: Entries, source: Entries, key: string): seq<Action>
    requires key in source
  {
    if key !in local then [Add(key)]
    else
      match Decide(local[key], source[key])
      case Identical => []
      case MissingModified => []
      case PullRemote => [Pull(key, local[key][Modified], source[key][Modified])]
      case KeepLocal => [Skip(key, local[key][Modified], source[key][Modified])]
  }

  /** The lines printed for `keys`, one name after the other. */
  function ExpectedLog(local: Entries, source: Entries, keys: seq<string>): seq<Action>
    requires forall k :: k in keys ==> k in source
  {
    if keys == [] then []
    else ExpectedLog(local, source, keys[..|keys| - 1]) + ActionFor(local, source, keys[|keys| - 1])
  }

  /** The record a name present in both vaults ends up with. */
  function Expected(local: Entries, source: Entries, key: string, now: string): Record
    requires key in local && key in source
  {
    if Decide(local[key], source[key]) == PullRemote then SetRecord(local, key, source[key], now)
    else local[key]
  }

  /** The names of the printed lines, in order. */
  function Names(log: seq<Action>): (names: seq<string>)
    ensures |names| == |log|
    ensures forall i :: 0 <= i < |log| ==> names[i] == log[i].name
  {
    seq(|log|, i requires 0 <= i < |log| => log[i].name)
  }

  // ---------------------------------------------------------------------------
  // Properties of the loop.
  // ---------------------------------------------------------------------------

  /** The loop over one more name is one more step. */
  lemma RunExtend(local: Entries, source: Entries, keys: seq<string>, i: nat, now: string)
    requires forall k :: k in keys ==> k in source
    requires i < |keys|
    ensures Run(local, source, keys[..i + 1], now) == Step(Run(local, source, keys[..i], now), source, keys[i], now)
  {
    assert keys[..i + 1][..i] == keys[..i];
  }

  /** Once an exception is raised the remaining names are not visited. */
  lemma {:induction false} RunStopsWhenRaised(local: Entries, source: Entries, keys: seq<string>, i: nat, now: string)
    requires forall k :: k in keys ==> k in source
    requires i <= |keys|
    requires Run(local, source, keys[..i], now).status.Raised?
    ensures Run(local, source, keys, now) == Run(local, source, keys[..i], now)
    decreases |keys|
  {
    if i == |keys| {
      assert keys[..i] == keys;
    } else {
      var init := keys[..|keys| - 1];
      assert init[..i] == keys[..i];
      RunStopsWhenRaised(local, source, init, i, now);
    }
  }

  /**
    The merge never adds a name to the first vault (the add branch raises instead) and
    never touches a name the second vault does not hold.
   */
  lemma {:induction false} RunFrame(local: Entries, source: Entries, keys: seq<string>, now: string)
    requires forall k :: k in keys ==> k in source
    ensures Run(local, source, keys, now).entries.Keys == local.Keys
    ensures forall k :: k in local && k !in keys ==> Run(local, source, keys, now).entries[k] == local[k]
  {
    if keys != [] {
      RunFrame(local, source, keys[..|keys| - 1], now);
    }
  }

  /** Merging a vault into a copy that already holds the same records changes nothing and prints nothing. */
  lemma {:induction false} RunIdenticalIsNoOp(local: Entries, source: Entries, keys: seq<string>, now: string)
    requires forall k :: k in keys ==> k in source && k in local && local[k] == source[k]
    ensures Run(local, source, keys, now) == State(local, [], Normal)
  {
    if keys != [] {
      RunIdenticalIsNoOp(local, source, keys[..|keys| - 1], now);
    }
  }

  /**
    Reaching, with no exception raised yet, a name the first vault lacks prints its add
    line and raises TypeError there, and the loop ends with that exception.
   */
  lemma RunAddRaises(local: Entries, source: Entries, keys: seq<string>, i: nat, now: string)
    requires forall k :: k in keys ==> k in source
    requires i < |keys|
    requires Run(local, source, keys[..i], now).status.Normal?
    requires keys[i] !in local
    ensures Run(local, source, keys, now).status == Raised(keys[i], TypeError)
    ensures Run(local, source, keys, now).log == Run(local, source, keys[..i], now).log + [Add(keys[i])]
  {
    RunFrame(local, source, keys[..i], now);
    RunExtend(local, source, keys, i, now);
    RunStopsWhenRaised(local, source, keys, i + 1, now);
  }

  /** A merge into an empty vault prints the add line of the first name, raises TypeError and adds nothing. */
  lemma {:induction false} RunIntoEmptyVault(source: Entries, keys: seq<string>, now: string)
    requires forall k :: k in keys ==> k in source
    requires keys != []
    ensures Run(map[], source, keys, now) == State(map[], [Add(keys[0])], Raised(keys[0], TypeError))
  {
    if |keys| > 1 {
      var init := keys[..|keys| - 1];
      RunIntoEmptyVault(source, init, now);
    } else {
      assert keys[..0] == [];
    }
  }

  /** One step's log has the names of the log before, possibly followed by `key`. */
  lemma NamesOfStep(log: seq<Action>, log': seq<Action>, key: string)
    requires log' == log || (|log'| == |log| + 1 && log'[..|log|] == log && log'[|log|].name == key)
    ensures Names(log') == Names(log) || Names(log') == Names(log) + [key]
  {
    if log' != log {
      assert Names(log') == Names(log) + [key];
    }
  }

  /**
    Each name of the second vault yields at most one line, and the lines come in the
    ascending order of `list()`.
   */
  lemma {:induction false} RunLogOrdered(local: Entries, source: Entries, keys: seq<string>, now: string)
    requires forall k :: k in keys ==> k in source
    requires StrictlySorted(keys)
    ensures StrictlySorted(Names(Run(local, source, keys, now).log))
    ensures forall n :: n in Names(Run(local, source, keys, now).log) ==> n in keys
  {
    if keys != [] {
      var init, last := keys[..|keys| - 1], keys[|keys| - 1];
      assert StrictlySorted(init);
      RunLogOrdered(local, source, init, now);
      var before := Names(Run(local, source, init, now).log);
      forall n | n in before
        ensures Less(n, last)
      {
        var j :| 0 <= j < |init| && init[j] == n;
        assert keys[j] == n;
      }
      NamesOfStep(Run(local, source, init, now).log, Run(local, source, keys, now).log, last);
    }
  }

  /**
    One step that raises nothing, on a name whose record is still the first vault's
    original one: it prints the reference line and stores the reference record.
   */
  lemma StepCompleted(local: Entries, st: State, source: Entries, key: string, now: string)
    requires key in source && key in st.entries
    requires key in local && st.entries[key] == local[key]
    requires st.status.Normal? && Step(st, source, key, now).status.Normal?
    ensures Step(st, source, key, now).log == st.log + ActionFor(local, source, key)
    ensures Step(st, source, key, now).entries == st.entries[key := Expected(local, source, key, now)]
  {
    SetRecordLocal(st.entries, local, key, source[key], now);
  }

  /**
    A merge that raises nothing leaves every name of the second vault already in the
    first, prints exactly the reference lines, and gives each name its reference
    record: pulled when the first vault's `modified` is strictly older (with the first
    vault's `created` and `modified = now`), otherwise unchanged.
   */
  lemma {:induction false} RunCompleted(local: Entries, source: Entries, keys: seq<string>, now: string)
    requires forall k :: k in keys ==> k in source
    requires StrictlySorted(keys)
    requires Run(local, source, keys, now).status.Normal?
    ensures forall k :: k in keys ==> k in local
    ensures Run(local, source, keys, now).log == ExpectedLog(local, source, keys)
    ensures forall k :: k in keys ==>
      k in Run(local, source, keys, now).entries && Run(local, source, keys, now).entries[k] == Expected(local, source, k, now)
  {
    if keys != [] {
      var init, last := keys[..|keys| - 1], keys[|keys| - 1];
      var st := Run(local, source, init, now);
      assert StrictlySorted(init);
      assert st.status.Normal?;
      RunCompleted(local, source, init, now);
      RunFrame(local, source, init, now);
      SortedLastIsNew(keys);
      assert last in st.entries && st.entries[last] == local[last];
      StepCompleted(local, st, source, last, now);
      forall k | k in keys
        ensures k in local
        ensures Run(local, source, keys, now).entries[k] == Expected(local, source, k, now)
      {
        if k != last {
          assert k in init;
        }
      }
    }
  }
}
