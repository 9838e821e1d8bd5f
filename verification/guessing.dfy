/** Guess-the-number (3_ecosystem/3_1_testing/src/main.rs): the verdict of
    `game_logic` and the console transcript of the loop in `main`, as a
    function of the secret and of the lines typed in. */
module Guessing {
  import opened Base
  import opened Text

  const TOO_SMALL: string := "Too small!"
  const TOO_BIG: string := "Too big!"
  const YOU_WIN: string := "You win!"
  const GREETING: string := "Guess the number!"
  const PROMPT: string := "Please input your guess."

  datatype Ordering = Less | Equal | Greater

  /** `u32::cmp`. */
  function Compare(x: nat, y: nat): Ordering
  {
    if x < y then Less else if x > y then Greater else Equal
  }

  /** `game_logic(num, secret_number)`: the message to print and whether the
      game is won. The flag is set exactly when the guess is the secret. */
  function GameLogic(num: u32, secret: u32): (r: (string, bool))
    ensures r.1 <==> num == secret
    ensures num < secret ==> r.0 == TOO_SMALL
    ensures num > secret ==> r.0 == TOO_BIG
    ensures num == secret ==> r.0 == YOU_WIN
  {
    match Compare(num, secret)
    case Less => (TOO_SMALL, false)
    case Greater => (TOO_BIG, false)
    case Equal => (YOU_WIN, true)
  }

  const U32_MAX: nat := 0xFFFF_FFFF

  /** `str::parse::<u32>()`: an optional `+`, then one or more ASCII digits,
      with a value that fits in 32 bits. */
  function ParseU32(s: string): (r: Option<u32>)
    ensures r.Some? ==> |s| > 0
  {
    if |s| == 0 then None
    else
      var digits := if s[0] == '+' then s[1..] else s;
      if |digits| == 0 || !AllDigits(digits) then None
      else
        var v := Accumulate(0, digits);
        if v <= U32_MAX then Some(v) else None
  }

  /** `get_guess_number`, given the line `read_line` produced. */
  function ParseGuess(line: string): Option<u32>
  {
    ParseU32(Trim(line))
  }

  /** A number printed in decimal reads back as itself. */
  lemma ParseU32NatToString(n: nat)
    requires n <= U32_MAX
    ensures ParseU32(NatToString(n)) == Some(n)
  {
    AccumulateNatToString(n);
    assert IsDigit(NatToString(n)[0]);
  }

  /** What one pass of the `loop` in `main` prints after the prompt, given
      what `get_guess_number` made of the line it read, and whether it
      breaks out of the loop: a line that does not parse prints nothing
      more; a number prints "You guessed: n" and the verdict, and ends the
      game when it is the secret. */
  function Round(secret: u32, guess: Option<u32>): (r: (seq<string>, bool))
    ensures r.1 <==> guess == Some(secret)
    ensures YOU_WIN in r.0 <==> r.1
    ensures r.1 ==> |r.0| > 0 && r.0[|r.0| - 1] == YOU_WIN
    ensures PROMPT !in r.0
  {
    match guess
    case None => ([], false)
    case Some(n) =>
      var (message, won) := GameLogic(n, secret);
      ([Echo(n), message], won)
  }

  /** `println!("You guessed: {}", guess)`: the label, then the guess in
      decimal; never the prompt or the winning message. */
  function Echo(n: u32): (s: string)
    ensures |s| > 13 && s[..13] == "You guessed: " && s[13..] == NatToString(n)
    ensures s != PROMPT && s != YOU_WIN
  {
    var s := "You guessed: " + NatToString(n);
    assert s[0] == 'Y' && s[4] == 'g';
    assert s[13..] == NatToString(n);
    s
  }

  /** The number echoed after the label reads back as the guess. */
  lemma EchoShowsGuess(n: u32)
    ensures ParseU32(Echo(n)[13..]) == Some(n)
  {
    ParseU32NatToString(n);
  }

  /** A line that does not parse prints nothing after the prompt; a number
      is echoed and then judged. */
  lemma RoundPrints(secret: u32, guess: Option<u32>)
    ensures guess.None? ==> Round(secret, guess) == ([], false)
    ensures guess.Some? ==>
      var n := guess.value;
      Round(secret, guess) == ([Echo(n), GameLogic(n, secret).0], n == secret)
  {
  }

  /** The output of the `loop` in `main`, given what `get_guess_number` made
      of each line: every pass starts with the prompt, and the loop ends
      after the first win. */
  function Play(secret: u32, guesses: seq<Option<u32>>): seq<string>
    decreases |guesses|
  {
    if |guesses| == 0 then []
    else
      var r := Round(secret, guesses[0]);
      [PROMPT] + r.0 + (if r.1 then [] else Play(secret, guesses[1..]))
  }

  /** `get_guess_number` applied to each input line. */
  function Guesses(lines: seq<string>): (gs: seq<Option<u32>>)
    ensures |gs| == |lines|
    ensures forall j | 0 <= j < |lines| :: gs[j] == ParseGuess(lines[j])
  {
    seq(|lines|, j requires 0 <= j < |lines| => ParseGuess(lines[j]))
  }

  /** The output of the `loop` in `main` while it reads `lines`. */
  function Rounds(secret: u32, lines: seq<string>): seq<string>
  {
    Play(secret, Guesses(lines))
  }

  /** Everything `main` prints for a given secret and input. */
  function Transcript(secret: u32, lines: seq<string>): (out: seq<string>)
    ensures |out| > 0 && out[0] == GREETING
  {
    [GREETING] + Rounds(secret, lines)
  }

  /** The output ends with the winning message. */
  predicate EndsWithWin(out: seq<string>)
  {
    |out| > 0 && out[|out| - 1] == YOU_WIN
  }

  lemma EndsWithWinAfter(a: seq<string>, b: seq<string>)
    requires EndsWithWin(b)
    ensures EndsWithWin(a + b)
  {
    assert (a + b)[|a + b| - 1] == b[|b| - 1];
  }

  /** The loop stops at the first winning guess: later guesses make no
      difference, and the output ends with "You win!". */
  lemma {:induction false} PlayStopsAtFirstWin(secret: u32, gs: seq<Option<u32>>, k: nat)
    requires k < |gs| && gs[k] == Some(secret)
    requires forall j | 0 <= j < k :: gs[j] != Some(secret)
    ensures Play(secret, gs) == Play(secret, gs[..k + 1])
    ensures EndsWithWin(Play(secret, gs))
    decreases k
  {
    var r := Round(secret, gs[0]);
    var prefix := gs[..k + 1];
    assert prefix[0] == gs[0];
    if k == 0 {
      assert Play(secret, gs) == [PROMPT] + r.0;
      assert Play(secret, prefix) == [PROMPT] + r.0;
      EndsWithWinAfter([PROMPT], r.0);
    } else {
      var rest := gs[1..];
      assert rest[k - 1] == gs[k];
      forall j | 0 <= j < k - 1
        ensures rest[j] != Some(secret)
      {
        assert rest[j] == gs[j + 1];
      }
      PlayStopsAtFirstWin(secret, rest, k - 1);
      assert prefix[1..] == rest[..k];
      assert Play(secret, gs) == [PROMPT] + r.0 + Play(secret, rest);
      assert Play(secret, prefix) == [PROMPT] + r.0 + Play(secret, prefix[1..]);
      EndsWithWinAfter([PROMPT] + r.0, Play(secret, rest));
    }
  }

  /** The first line that parses to the secret ends the game: the output
      ends with "You win!", and later lines are never read. */
  lemma StopsAtFirstWin(secret: u32, lines: seq<string>, k: nat)
    requires k < |lines| && ParseGuess(lines[k]) == Some(secret)
    requires forall j | 0 <= j < k :: ParseGuess(lines[j]) != Some(secret)
    ensures Rounds(secret, lines) == Rounds(secret, lines[..k + 1])
    ensures EndsWithWin(Rounds(secret, lines))
  {
    var gs := Guesses(lines);
    assert gs[k] == Some(secret);
    forall j | 0 <= j < k
      ensures gs[j] != Some(secret)
    {
      assert gs[j] == ParseGuess(lines[j]);
    }
    PlayStopsAtFirstWin(secret, gs, k);
    GuessesPrefix(lines, k + 1);
    assert Rounds(secret, lines[..k + 1]) == Play(secret, gs[..k + 1]);
  }

  /** The guesses of a prefix of the input are a prefix of the guesses. */
  lemma GuessesPrefix(lines: seq<string>, m: nat)
    requires m <= |lines|
    ensures Guesses(lines)[..m] == Guesses(lines[..m])
  {
    var gs, short := Guesses(lines), Guesses(lines[..m]);
    forall j | 0 <= j < m
      ensures gs[..m][j] == short[j]
    {
      assert lines[..m][j] == lines[j];
    }
  }

  /** Guesses that all miss never make the loop print "You win!", and each
      costs exactly one prompt. */
  lemma {:induction false} PlayWithoutWin(secret: u32, gs: seq<Option<u32>>)
    requires forall j | 0 <= j < |gs| :: gs[j] != Some(secret)
    ensures YOU_WIN !in Play(secret, gs)
    ensures multiset(Play(secret, gs))[PROMPT] == |gs|
    decreases |gs|
  {
    if |gs| > 0 {
      var rest := gs[1..];
      forall j | 0 <= j < |rest|
        ensures rest[j] != Some(secret)
      {
        assert rest[j] == gs[j + 1];
      }
      PlayWithoutWin(secret, rest);
      var r := Round(secret, gs[0]);
      assert Play(secret, gs) == [PROMPT] + r.0 + Play(secret, rest);
      assert multiset(r.0)[PROMPT] == 0;
      assert YOU_WIN != PROMPT;
    }
  }

  /** Without a line that parses to the secret, "You win!" is never printed,
      and every line read costs exactly one prompt. */
  lemma NoWinWithoutSecret(secret: u32, lines: seq<string>)
    requires forall j | 0 <= j < |lines| :: ParseGuess(lines[j]) != Some(secret)
    ensures YOU_WIN !in Rounds(secret, lines)
    ensures multiset(Rounds(secret, lines))[PROMPT] == |lines|
  {
    PlayWithoutWin(secret, Guesses(lines));
  }
}
