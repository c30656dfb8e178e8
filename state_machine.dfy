/** The TDI lifecycle state held by the responder. */
module StateMachine {
  import opened TdispTypes

  class TdispStateMachine {
    var state: TdispState
    /** The target of every transition taken so far, oldest first. */
    ghost var history: seq<TdispState>

    /** A TDI starts out with its configuration unlocked. */
    constructor ()
      ensures state == ConfigUnlocked && history == []
    {
      state := ConfigUnlocked;
      history := [];
    }

    method ToStateConfigUnlocked()
      modifies this
      ensures state == ConfigUnlocked
      ensures history == old(history) + [ConfigUnlocked]
    {
      state := ConfigUnlocked;
      history := history + [ConfigUnlocked];
    }
  }
}
