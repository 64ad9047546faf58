/** The names of ban actions, in the feed and in Redis. */
module Actions {

  const NONE: nat := 0
  const BAN: nat := 1
  const CAPTCHA: nat := 2
  const THROTTLE: nat := 3

  function Action(token: string): nat {
    if token == "ban" then BAN
    else if token == "captcha" then CAPTCHA
    else if token == "throttle" then THROTTLE
    else NONE
  }

  /** Anything unknown is written as a ban. */
  function ActionText(action: nat): string {
    if action == CAPTCHA then "captcha" else if action == THROTTLE then "throttle" else "ban"
  }

  /** A written action reads back, the unknown ones as a ban; what is read is never unknown and not none. */
  lemma ActionRoundTrip(action: nat)
    ensures Action(ActionText(action)) == if action == CAPTCHA || action == THROTTLE then action else BAN
  {
  }
}
