/** The `schedule_restart` command: an operator asks for the server to be stopped
    as soon as everyone has logged off (the list updater sends the `stop`), or
    cancels that request. */
module ScheduleRestart {

  import opened Wrappers
  import opened ListUpdater

  const CANCELLED: string := "The scheduled restart has been cancelled."
  const NOT_SCHEDULED: string := "There is no restart scheduled."
  const ALREADY_SCHEDULED: string := "There is already a restart scheduled."
  const SCHEDULED: string := "A restart has been scheduled - it will occur as soon as everyone logs off."

  /** The reply, given whether the command cancels and whether a restart was scheduled. */
  function Reply(cancel: bool, scheduled: bool): string {
    if cancel && scheduled then CANCELLED
    else if cancel then NOT_SCHEDULED
    else if scheduled then ALREADY_SCHEDULED
    else SCHEDULED
  }

  /** The four replies are distinct: the reply tells both what was asked and what the
      state was. */
  lemma ReplyDetermines(c1: bool, s1: bool, c2: bool, s2: bool)
    requires Reply(c1, s1) == Reply(c2, s2)
    ensures c1 == c2 && s1 == s2
  {
    assert |CANCELLED| == 41 && |NOT_SCHEDULED| == 30;
    assert |ALREADY_SCHEDULED| == 37 && |SCHEDULED| == 74;
  }

  /** The flag after the command: set unless the command cancels. */
  function NextScheduled(cancel: bool, scheduled: bool): (r: bool)
    ensures r == !cancel
  {
    if cancel && scheduled then false
    else if cancel then scheduled
    else if scheduled then scheduled
    else true
  }

  /** Repeating a command changes nothing more, and the repeat is told so. */
  lemma Idempotent(cancel: bool, scheduled: bool)
    ensures NextScheduled(cancel, NextScheduled(cancel, scheduled)) == NextScheduled(cancel, scheduled)
    ensures Reply(cancel, NextScheduled(cancel, scheduled)) == if cancel then NOT_SCHEDULED else ALREADY_SCHEDULED
  {
  }

  /** `schedule_restart`: `cancel` defaults to false. The flag is written only when it
      changes: cancelling a scheduled restart, or scheduling when none is. */
  method Run(data: Data, cancel: Option<bool>) returns (reply: string)
    modifies data`restartScheduled
    ensures data.restartScheduled == !cancel.GetOr(false)
    ensures reply == Reply(cancel.GetOr(false), old(data.restartScheduled))
  {
    var cancelling := cancel.GetOr(false);
    if cancelling && data.restartScheduled {
      data.restartScheduled := false;
      reply := CANCELLED;
    } else if cancelling {
      reply := NOT_SCHEDULED;
    } else if data.restartScheduled {
      reply := ALREADY_SCHEDULED;
    } else {
      data.restartScheduled := true;
      reply := SCHEDULED;
    }
  }
}
