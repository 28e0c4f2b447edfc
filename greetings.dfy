/** The time-of-day greeting: a salutation chosen by the hour of the clock.
    The home page appends the user's name when someone is logged in; the
    register and login pages show the salutation alone, which is
    `Greeting(hour, None)`. The clock is read by the caller. */
module Greetings {
  import opened Wrappers

  const Morning := "Good morning"
  const Afternoon := "Good afternoon"
  const Evening := "Good evening"

  /** The salutation for an hour of the day. The hour comes from a clock
      reading, so it lies in 0..23; any other value falls to the last branch,
      as it would in the source. */
  function Salutation(hour: int): (s: string)
    ensures s == Morning <==> 0 <= hour < 11
    ensures s == Afternoon <==> 11 <= hour < 17
    ensures s == Evening <==> !(0 <= hour < 17)
  {
    if 0 <= hour < 11 then Morning
    else if 11 <= hour < 17 then Afternoon
    else Evening
  }

  /** Position of a salutation in the day: morning, afternoon, evening. */
  function Rank(s: string): nat
  {
    if s == Morning then 0 else if s == Afternoon then 1 else 2
  }

  /** Over one day the salutation only moves forward: a later hour never gets
      an earlier part of the day. */
  lemma SalutationMonotone(h1: int, h2: int)
    requires 0 <= h1 <= h2 < 24
    ensures Rank(Salutation(h1)) <= Rank(Salutation(h2))
  {
  }

  /** The greeting: the salutation, and when a user is logged in, exactly
      ", " and the username appended. */
  function Greeting(hour: int, username: Option<string>): (g: string)
    ensures |Salutation(hour)| <= |g| && g[..|Salutation(hour)|] == Salutation(hour)
    ensures username.None? ==> g == Salutation(hour)
    ensures username.Some? ==> g[|Salutation(hour)|..] == ", " + username.value
  {
    match username
    case None => Salutation(hour)
    case Some(name) => Salutation(hour) + ", " + name
  }

  /** Reads a greeting back into its salutation and the name it addresses. */
  function ParseGreeting(g: string): Option<(string, Option<string>)>
  {
    if |g| >= |Morning| && g[..|Morning|] == Morning then
      ParseRest(Morning, g[|Morning|..])
    else if |g| >= |Afternoon| && g[..|Afternoon|] == Afternoon then
      ParseRest(Afternoon, g[|Afternoon|..])
    else if |g| >= |Evening| && g[..|Evening|] == Evening then
      ParseRest(Evening, g[|Evening|..])
    else None
  }

  function ParseRest(salutation: string, rest: string): Option<(string, Option<string>)>
  {
    if rest == [] then Some((salutation, None))
    else if |rest| >= 2 && rest[..2] == ", " then Some((salutation, Some(rest[2..])))
    else None
  }

  /** A greeting determines its salutation and the name in it: no two
      salutations are prefixes of one another, and the name follows ", ". */
  lemma GreetingRoundTrip(hour: int, username: Option<string>)
    ensures ParseGreeting(Greeting(hour, username)) == Some((Salutation(hour), username))
  {
    var s := Salutation(hour);
    var g := Greeting(hour, username);
    var rest := g[|s|..];
    assert g == s + rest;
    assert Morning[5] == 'm' && Afternoon[5] == 'a' && Evening[5] == 'e';
    if s == Afternoon {
      assert g[..|Morning|][5] != Morning[5];
    } else if s == Evening {
      assert g[..|Morning|][5] != Morning[5];
      if |g| >= |Afternoon| { assert g[..|Afternoon|][5] != Afternoon[5]; }
    }
    if username.Some? {
      assert rest[..2] == ", " && rest[2..] == username.value;
    }
  }
}
