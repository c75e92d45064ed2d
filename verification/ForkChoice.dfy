/** The decision whether a stored header should become the head of the chain. */
module ForkChoice {
  import opened Wrappers

  /** What is known of one of the two competing headers. */
  datatype Candidate = Candidate(td: Option<nat>, number: nat, preserve: bool)

  /**
   `ttd` is the terminal total difficulty of the configuration, if there is one, and
   `coin` is the outcome of the random draw that breaks a tie between two headers of the
   same height.
   */
  function ReorgNeeded(current: Candidate, header: Candidate, ttd: Option<nat>, coin: bool): (r: Result<bool>)
    ensures r.Err? <==> current.td.None? || header.td.None?
    ensures r.Ok? && header.td.value > current.td.value ==> r.value
    ensures r.Ok? && ttd.Some? && ttd.value <= header.td.value ==> r.value
    ensures r.Ok? && r.value && !(ttd.Some? && ttd.value <= header.td.value) ==>
      header.td.value > current.td.value
      || (header.td.value == current.td.value && header.number <= current.number)
  {
    if current.td.None? || header.td.None? then Err("missing td")
    else if ttd.Some? && ttd.value <= header.td.value then Ok(true)
    else if header.td.value > current.td.value then Ok(true)
    else if header.td.value == current.td.value then
      if header.number < current.number then Ok(true)
      else if header.number == current.number then Ok(!current.preserve && (header.preserve || coin))
      else Ok(false)
    else Ok(false)
  }

  /**
   Without a terminal difficulty the choice orders headers: the heavier one wins, of two
   equally heavy ones the lower wins, and only equal weight at equal height is left to the
   draw.  `ReorgNeeded` asked both ways round never answers "switch" twice, except when the
   draw decides.
   */
  lemma ChoiceFollowsWeight(a: Candidate, b: Candidate, coinAB: bool, coinBA: bool)
    requires a.td.Some? && b.td.Some?
    ensures ReorgNeeded(a, b, None, coinAB).value ==> b.td.value >= a.td.value
    ensures b.td.value > a.td.value ==> ReorgNeeded(a, b, None, coinAB).value
    ensures (a.td.value, a.number) != (b.td.value, b.number) ==>
      ReorgNeeded(a, b, None, coinAB).value != ReorgNeeded(b, a, None, coinBA).value
    ensures b.td.value == a.td.value && b.number < a.number ==> ReorgNeeded(a, b, None, coinAB).value
    ensures b.td.value == a.td.value && b.number == a.number && a.preserve != b.preserve ==>
      ReorgNeeded(a, b, None, coinAB).value == b.preserve
    ensures b.td.value == a.td.value && b.number == a.number && a.preserve && b.preserve ==>
      !ReorgNeeded(a, b, None, coinAB).value
  {
  }

  /**
   The same while a terminal difficulty is configured and not reached; two equally heavy
   headers of one height, neither of them preserved, are left to the draw.
   */
  lemma TiesAreSettled(a: Candidate, b: Candidate, ttd: Option<nat>, coin: bool)
    requires a.td.Some? && b.td.Some? && (ttd.Some? ==> b.td.value < ttd.value)
    ensures b.td.value != a.td.value ==> ReorgNeeded(a, b, ttd, coin) == Ok(b.td.value > a.td.value)
    ensures b.td.value == a.td.value && b.number != a.number ==>
      ReorgNeeded(a, b, ttd, coin) == Ok(b.number < a.number)
    ensures b.td.value == a.td.value && b.number == a.number && a.preserve ==>
      ReorgNeeded(a, b, ttd, coin) == Ok(false)
    ensures b.td.value == a.td.value && b.number == a.number && !a.preserve && b.preserve ==>
      ReorgNeeded(a, b, ttd, coin) == Ok(true)
    ensures b.td.value == a.td.value && b.number == a.number && !a.preserve && !b.preserve ==>
      ReorgNeeded(a, b, ttd, coin) == Ok(coin)
  {
  }
}
