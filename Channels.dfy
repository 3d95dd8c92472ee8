/**
 * Channel references: callers name an input channel by its number or any
 * channel by its full name; `setAlarm`, `disableAlarm` and `read` turn a
 * number into the input channel's name.
 */
module Channels {
  import opened Wrappers
  import opened Decimals

  /** What a caller passes as `channel`: an integer, or a string used as is. */
  datatype Channel = Index(n: int) | Name(s: string)

  /** `"{}".format(channel)`: the text Python makes of either kind of argument. */
  function Arg(ch: Channel): string
  {
    match ch
    case Index(n) => IntText(n)
    case Name(s) => s
  }

  /**
   * `if not isinstance(channel, str): channel = "In{}".format(channel)`:
   * a number becomes the name of that input channel, "In" followed by its
   * decimal digits, which read back as the same number; a string is kept.
   */
  function Resolve(ch: Channel): (r: string)
    ensures ch.Name? ==> r == ch.s
    ensures ch.Index? ==> |r| > 2 && r[..2] == "In" && ParseInt(r[2..]) == Some(ch.n)
    ensures ch.Index? ==> r[2..] == IntText(ch.n)
  {
    match ch
    case Index(n) =>
      var r := "In" + Arg(ch);
      assert r[2..] == IntText(n);
      ParseIntText(n);
      r
    case Name(s) => s
  }

  /** Two numbered channels resolve to the same name only if they are the same channel. */
  lemma ResolveInjectiveOnIndices(a: int, b: int)
    requires Resolve(Index(a)) == Resolve(Index(b))
    ensures a == b
  {
    assert Resolve(Index(a))[2..] == Resolve(Index(b))[2..];
  }
}
