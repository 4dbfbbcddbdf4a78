/** The retention policy an operator configures, and the cutoff it implies. */
module Retention {
  import opened Wrappers

  const DAY := 86400
  const MODE_INDEFINITE := "indefinite"
  const MODE_NONE := "none"
  const MODE_DAYS := "days"

  datatype Policy = KeepAll | DeleteWhenClosed | DeleteAfter(days: nat) {
    predicate DeletesAnything() {
      !KeepAll?
    }

    function Cutoff(now: int): int
      requires DeletesAnything()
    {
      match this
      case DeleteWhenClosed => now
      case DeleteAfter(days) => now - days * DAY
    }
  }

  /** A stored day count: absent, present but not a number, or a number. */
  datatype StoredDays = Missing | Unreadable | Number(value: int)

  /** `mode` is the stored text with surrounding blanks removed. */
  function LoadPolicy(mode: Option<string>, days: StoredDays): Policy {
    var chosen := if mode.None? || mode.value == "" then MODE_INDEFINITE else mode.value;
    if chosen !in {MODE_INDEFINITE, MODE_NONE, MODE_DAYS} then KeepAll
    else if days.Unreadable? then KeepAll
    else if chosen == MODE_DAYS && (days.Missing? || days.value < 1) then KeepAll
    else if chosen == MODE_NONE then DeleteWhenClosed
    else if chosen == MODE_DAYS then DeleteAfter(days.value)
    else KeepAll
  }
}
