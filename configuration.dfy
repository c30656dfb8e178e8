/**
 * The abstract configuration store the handler scrubs and unlocks. The real
 * backend is a foreign collaborator, so each operation's outcome is supplied by
 * the caller, and the store keeps ghost flags and a log of the calls it served.
 */
module Configuration {

  /** The outcome of a backend operation (the error's contents are not used). */
  datatype ConfigResult = ConfigOk | ConfigErr

  /** One call into the store, with whether it succeeded. */
  datatype ConfigCall = Erase(succeeded: bool) | Unlock(succeeded: bool)

  /** Whether the confidential configuration has been erased and whether the
      configuration is unlocked. */
  datatype ConfigFlags = ConfigFlags(erased: bool, unlocked: bool)

  /** The effect of one call: a successful erase records that secrets are gone, a
      successful unlock that configuration is writable; a failed call changes
      nothing. */
  function ApplyCall(f: ConfigFlags, c: ConfigCall): (g: ConfigFlags)
    ensures g.erased == (f.erased || c == Erase(true))
    ensures g.unlocked == (f.unlocked || c == Unlock(true))
  {
    match c
    case Erase(ok) => if ok then f.(erased := true) else f
    case Unlock(ok) => if ok then f.(unlocked := true) else f
  }

  /** The flags after the calls of `calls`, oldest first. */
  function ApplyCalls(f: ConfigFlags, calls: seq<ConfigCall>): (g: ConfigFlags)
    decreases |calls|
  {
    if calls == [] then f else ApplyCalls(ApplyCall(f, calls[0]), calls[1..])
  }

  /** Configuration is never unlocked while confidential secrets remain. */
  ghost predicate ScrubbedIfUnlocked(f: ConfigFlags) {
    f.unlocked ==> f.erased
  }

  /** Every unlock in a log comes right after an erase that succeeded. */
  ghost predicate ScrubBeforeUnlock(calls: seq<ConfigCall>) {
    forall i :: 0 <= i < |calls| && calls[i].Unlock? ==> 0 < i && calls[i - 1] == Erase(true)
  }

  /** Every unlock in `calls` follows a successful erase, or stands first while
      the flags `f` already record the erase. */
  ghost predicate UnlocksAfterErase(f: ConfigFlags, calls: seq<ConfigCall>) {
    && (|calls| > 0 && calls[0].Unlock? ==> f.erased)
    && forall i :: 0 < i < |calls| && calls[i].Unlock? ==> calls[i - 1] == Erase(true)
  }

  /** Applying a log in which every unlock follows a successful erase keeps
      configuration scrubbed whenever it is unlocked. */
  lemma {:induction false} ApplyCallsKeepsScrubbed(f: ConfigFlags, calls: seq<ConfigCall>)
    requires ScrubbedIfUnlocked(f) && UnlocksAfterErase(f, calls)
    ensures ScrubbedIfUnlocked(ApplyCalls(f, calls))
    decreases |calls|
  {
    if calls != [] {
      var g := ApplyCall(f, calls[0]);
      var rest := calls[1..];
      if |rest| > 0 && rest[0].Unlock? {
        assert calls[1] == rest[0];
      }
      forall i | 0 < i < |rest| && rest[i].Unlock?
        ensures rest[i - 1] == Erase(true)
      {
        assert rest[i] == calls[i + 1];
      }
      ApplyCallsKeepsScrubbed(g, rest);
    }
  }

  /** A log in which every unlock follows a successful erase meets that
      condition from any flags. */
  lemma ScrubBeforeUnlockFromAnyFlags(f: ConfigFlags, calls: seq<ConfigCall>)
    requires ScrubBeforeUnlock(calls)
    ensures UnlocksAfterErase(f, calls)
  {
  }

  /** Applying two logs one after the other is applying their concatenation. */
  lemma {:induction false} ApplyCallsConcat(f: ConfigFlags, a: seq<ConfigCall>, b: seq<ConfigCall>)
    ensures ApplyCalls(f, a + b) == ApplyCalls(ApplyCalls(f, a), b)
    decreases |a|
  {
    if a == [] {
      assert a + b == b;
    } else {
      assert (a + b)[0] == a[0] && (a + b)[1..] == a[1..] + b;
      ApplyCallsConcat(ApplyCall(f, a[0]), a[1..], b);
      assert ApplyCalls(f, a) == ApplyCalls(ApplyCall(f, a[0]), a[1..]);
      assert ApplyCalls(f, a + b) == ApplyCalls(ApplyCall(f, a[0]), a[1..] + b);
    }
  }

  /** Logs in which every unlock follows a successful erase stay so when one is
      appended to another. */
  lemma ScrubBeforeUnlockConcat(a: seq<ConfigCall>, b: seq<ConfigCall>)
    requires ScrubBeforeUnlock(a) && ScrubBeforeUnlock(b)
    ensures ScrubBeforeUnlock(a + b)
  {
  }

  class ConfigurationStore {
    ghost var erased: bool
    ghost var unlocked: bool
    /** Every call this store has served, oldest first. */
    ghost var calls: seq<ConfigCall>

    ghost function Flags(): ConfigFlags
      reads this
    {
      ConfigFlags(erased, unlocked)
    }

    constructor (erased: bool, unlocked: bool)
      ensures Flags() == ConfigFlags(erased, unlocked) && calls == []
    {
      this.erased := erased;
      this.unlocked := unlocked;
      calls := [];
    }

    /** Scrubs the confidential configuration; `backend` is what the device's
        backend reports. */
    method EraseConfidentialConfig(backend: ConfigResult) returns (r: ConfigResult)
      modifies this
      ensures r == backend
      ensures calls == old(calls) + [Erase(backend.ConfigOk?)]
      ensures Flags() == ApplyCall(old(Flags()), Erase(backend.ConfigOk?))
    {
      r := backend;
      if backend.ConfigOk? {
        erased := true;
      }
      calls := calls + [Erase(backend.ConfigOk?)];
    }

    /** Makes the non-confidential configuration writable; `backend` is what the
        device's backend reports. */
    method UnlockConfig(backend: ConfigResult) returns (r: ConfigResult)
      modifies this
      ensures r == backend
      ensures calls == old(calls) + [Unlock(backend.ConfigOk?)]
      ensures Flags() == ApplyCall(old(Flags()), Unlock(backend.ConfigOk?))
    {
      r := backend;
      if backend.ConfigOk? {
        unlocked := true;
      }
      calls := calls + [Unlock(backend.ConfigOk?)];
    }
  }
}
