/** The hand-written duration text codec of 3_ecosystem/3_6_serde/src/main.rs:
    `parse_duration_string` and the string that `DurationWrapper::serialize`
    builds, e.g. "1h2m3s4ms". */
module DurationCodec {
  import opened Base
  import opened Text

  const NANOS_PER_SEC: nat := 1_000_000_000
  const NANOS_PER_MILLI: nat := 1_000_000

  /** `std::time::Duration`, as its whole number of nanoseconds; two durations
      are equal exactly when these numbers are. */
  datatype Duration = Duration(nanos: nat)
  {
    /** `Duration::as_secs` */
    function AsSecs(): nat { nanos / NANOS_PER_SEC }
    /** `Duration::subsec_nanos` */
    function SubsecNanos(): nat { nanos % NANOS_PER_SEC }
    /** `Duration::subsec_millis` */
    function SubsecMillis(): nat { SubsecNanos() / NANOS_PER_MILLI }
  }

  /** The units the serialiser writes, with their suffixes. */
  datatype Unit = Hours | Minutes | Seconds | Millis | Nanos
  {
    function Suffix(): string
    {
      match this
      case Hours => "h"
      case Minutes => "m"
      case Seconds => "s"
      case Millis => "ms"
      case Nanos => "ns"
    }

    /** `n` of this unit in nanoseconds, as the parser adds it:
        `Duration::from_secs(n * 60 * 60)`, `from_secs(n * 60)`,
        `from_secs(n)`, `from_millis(n)`; and `n` nanoseconds. */
    function Of(n: nat): nat
    {
      match this
      case Hours => n * 3_600_000_000_000
      case Minutes => n * 60_000_000_000
      case Seconds => n * 1_000_000_000
      case Millis => n * 1_000_000
      case Nanos => n
    }
  }

  const INVALID_UNIT: string := "Invalid duration unit"

  // ---------------------------------------------------------------------------
  // parse_duration_string
  // ---------------------------------------------------------------------------

  /** `.chars().filter(|ch| !ch.is_whitespace())`. */
  function RemoveWhitespace(s: string): (t: string)
    ensures |t| <= |s|
    ensures NoWhitespace(t)
  {
    if |s| == 0 then []
    else (if IsWhitespace(s[0]) then [] else [s[0]]) + RemoveWhitespace(s[1..])
  }

  /** A character that `parse_duration_string` rejects wherever it stands:
      not whitespace, not a digit, not one of the unit letters `s`, `m`, `h`. */
  predicate IsInvalidUnit(c: char)
  {
    !IsWhitespace(c) && !IsDigit(c) && c != 's' && c != 'm' && c != 'h'
  }

  predicate HasInvalidUnit(s: string)
  {
    exists i | 0 <= i < |s| :: IsInvalidUnit(s[i])
  }

  /** The `loop` of `parse_duration_string` over the filtered characters `cs`,
      with `current` the number read so far and `parsed` the duration so far
      in nanoseconds. `m` followed by `s` (after whitespace removal) is
      milliseconds and consumes the `s`; every other unit character resets
      `current` to 0; a number left at the end counts as seconds. */
  function ParseLoop(cs: string, current: nat, parsed: nat): (r: Result<Duration, string>)
    ensures r.Err? ==> r.error == INVALID_UNIT
    ensures r.Ok? ==> r.value.nanos >= parsed
    decreases |cs|
  {
    if |cs| == 0 then
      Ok(Duration(if current != 0 then parsed + Seconds.Of(current) else parsed))
    else if IsDigit(cs[0]) then ParseLoop(cs[1..], 10 * current + DigitValue(cs[0]), parsed)
    else match UnitAt(cs)
      case None => Err(INVALID_UNIT)
      case Some(u) => ParseLoop(cs[|u.Suffix()|..], 0, parsed + u.Of(current))
  }

  /** The `match (c, cs.peek())` of the loop: the unit whose suffix `cs`
      starts with, `ms` taking precedence over `m`, and `None` for any other
      character. */
  function UnitAt(cs: string): (u: Option<Unit>)
    requires |cs| > 0
    ensures u.Some? ==> u.value != Nanos && |u.value.Suffix()| <= |cs|
                        && cs[..|u.value.Suffix()|] == u.value.Suffix()
    ensures u.None? <==> cs[0] != 's' && cs[0] != 'm' && cs[0] != 'h'
  {
    if cs[0] == 's' then Some(Seconds)
    else if cs[0] == 'm' && |cs| > 1 && cs[1] == 's' then Some(Millis)
    else if cs[0] == 'm' then Some(Minutes)
    else if cs[0] == 'h' then Some(Hours)
    else None
  }

  /** `custom::parse_duration_string`. */
  function ParseDuration(s: string): (r: Result<Duration, string>)
    ensures r.Err? ==> r.error == INVALID_UNIT
    ensures s == "" ==> r == Ok(Duration(0))
  {
    ParseLoop(RemoveWhitespace(s), 0, 0)
  }

  lemma {:induction false} ParseLoopFailsIffInvalidUnit(cs: string, current: nat, parsed: nat)
    requires NoWhitespace(cs)
    ensures ParseLoop(cs, current, parsed).Err? <==> HasInvalidUnit(cs)
    decreases |cs|
  {
    if |cs| > 0 && !IsInvalidUnit(cs[0]) {
      if IsDigit(cs[0]) {
        ParseLoopFailsIffInvalidUnit(cs[1..], 10 * current + DigitValue(cs[0]), parsed);
        InvalidUnitAfter(cs, 1);
      } else {
        assert !IsWhitespace(cs[0]);
        var u := UnitAt(cs).value;
        var w := |u.Suffix()|;
        assert w == 2 ==> cs[1] == u.Suffix()[1];
        ParseLoopFailsIffInvalidUnit(cs[w..], 0, parsed + u.Of(current));
        InvalidUnitAfter(cs, w);
      }
    } else if |cs| > 0 {
      assert HasInvalidUnit(cs) by {
        assert IsInvalidUnit(cs[0]);
      }
    }
  }

  /** Dropping a prefix of valid characters keeps the invalid ones. */
  lemma InvalidUnitAfter(cs: string, w: nat)
    requires 0 < w <= |cs|
    requires forall i | 0 <= i < w :: !IsInvalidUnit(cs[i])
    ensures HasInvalidUnit(cs) <==> HasInvalidUnit(cs[w..])
  {
    if HasInvalidUnit(cs) {
      var i :| 0 <= i < |cs| && IsInvalidUnit(cs[i]);
      assert cs[w..][i - w] == cs[i];
    }
    if HasInvalidUnit(cs[w..]) {
      var i :| 0 <= i < |cs[w..]| && IsInvalidUnit(cs[w..][i]);
      assert cs[i + w] == cs[w..][i];
    }
  }

  lemma {:induction false} RemoveWhitespaceKeepsInvalidUnits(s: string)
    ensures HasInvalidUnit(RemoveWhitespace(s)) <==> HasInvalidUnit(s)
    decreases |s|
  {
    if |s| > 0 {
      var head := if IsWhitespace(s[0]) then [] else [s[0]];
      var t := RemoveWhitespace(s[1..]);
      RemoveWhitespaceKeepsInvalidUnits(s[1..]);
      assert RemoveWhitespace(s) == head + t;
      if HasInvalidUnit(s) {
        var i :| 0 <= i < |s| && IsInvalidUnit(s[i]);
        if i == 0 {
          assert (head + t)[0] == s[0];
        } else {
          assert s[1..][i - 1] == s[i];
          var j :| 0 <= j < |t| && IsInvalidUnit(t[j]);
          assert (head + t)[|head| + j] == t[j];
        }
      }
      if HasInvalidUnit(head + t) {
        var i :| 0 <= i < |head + t| && IsInvalidUnit((head + t)[i]);
        if i < |head| {
          assert (head + t)[i] == s[0];
        } else {
          assert (head + t)[i] == t[i - |head|];
          var j :| 0 <= j < |s[1..]| && IsInvalidUnit(s[1..][j]);
          assert s[j + 1] == s[1..][j];
        }
      }
    }
  }

  /** The filter distributes over concatenation; together with
      `RemoveWhitespaceSingle` this says it drops exactly the whitespace and
      keeps every other character, in order. */
  lemma {:induction false} RemoveWhitespaceAppend(a: string, b: string)
    ensures RemoveWhitespace(a + b) == RemoveWhitespace(a) + RemoveWhitespace(b)
    decreases |a|
  {
    if |a| == 0 {
      assert a + b == b;
    } else {
      assert (a + b)[0] == a[0];
      assert (a + b)[1..] == a[1..] + b;
      RemoveWhitespaceAppend(a[1..], b);
      var head := if IsWhitespace(a[0]) then [] else [a[0]];
      assert head + (RemoveWhitespace(a[1..]) + RemoveWhitespace(b))
          == (head + RemoveWhitespace(a[1..])) + RemoveWhitespace(b);
    }
  }

  /** On one character the filter drops whitespace and keeps anything else. */
  lemma RemoveWhitespaceSingle(c: char)
    ensures RemoveWhitespace([c]) == if IsWhitespace(c) then [] else [c]
  {
    assert [c][1..] == [];
  }

  /** Only whitespace filters away to nothing. */
  lemma {:induction false} RemoveAllWhitespace(w: string)
    requires forall i | 0 <= i < |w| :: IsWhitespace(w[i])
    ensures RemoveWhitespace(w) == []
    decreases |w|
  {
    if |w| > 0 {
      assert forall i | 0 <= i < |w[1..]| :: IsWhitespace(w[1..][i]) by {
        forall i | 0 <= i < |w[1..]| ensures IsWhitespace(w[1..][i]) {
          assert w[1..][i] == w[i + 1];
        }
      }
      RemoveAllWhitespace(w[1..]);
    }
  }

  /** Whitespace inserted anywhere in the input does not change the parse. */
  lemma ParseIgnoresWhitespace(a: string, w: string, b: string)
    requires forall i | 0 <= i < |w| :: IsWhitespace(w[i])
    ensures ParseDuration(a + w + b) == ParseDuration(a + b)
  {
    RemoveWhitespaceAppend(a + w, b);
    RemoveWhitespaceAppend(a, w);
    RemoveWhitespaceAppend(a, b);
    RemoveAllWhitespace(w);
    assert RemoveWhitespace(a) + [] == RemoveWhitespace(a);
  }
  /** Parsing fails, always with "Invalid duration unit", exactly when the
      input holds a character other than whitespace, a digit, `s`, `m` or `h`
      (the `n` of `ns` among them). */
  lemma ParseFailsIffInvalidUnit(s: string)
    ensures ParseDuration(s).Err? <==> HasInvalidUnit(s)
    ensures ParseDuration(s).Err? ==> ParseDuration(s).error == INVALID_UNIT
  {
    ParseLoopFailsIffInvalidUnit(RemoveWhitespace(s), 0, 0);
    RemoveWhitespaceKeepsInvalidUnits(s);
  }

  lemma {:induction false} ParseLoopDigits(ds: string, rest: string, current: nat, parsed: nat)
    requires AllDigits(ds)
    ensures ParseLoop(ds + rest, current, parsed) == ParseLoop(rest, Accumulate(current, ds), parsed)
    decreases |ds|
  {
    if |ds| == 0 {
      assert ds + rest == rest;
    } else {
      assert (ds + rest)[0] == ds[0];
      assert (ds + rest)[1..] == ds[1..] + rest;
      ParseLoopDigits(ds[1..], rest, 10 * current + DigitValue(ds[0]), parsed);
    }
  }

  /** A number without a unit counts as seconds. */
  lemma BareNumberIsSeconds(n: nat)
    ensures ParseDuration(NatToString(n)) == Ok(Duration(Seconds.Of(n)))
  {
    var s := NatToString(n);
    NoWhitespaceUnchanged(s);
    ParseLoopDigits(s, [], 0, 0);
    assert s + [] == s;
    AccumulateNatToString(n);
  }

  // ---------------------------------------------------------------------------
  // DurationWrapper::serialize
  // ---------------------------------------------------------------------------

  /** One `format!("{}{}<unit>", res, n)` step: written only when `n != 0`. */
  function Component(n: nat, u: Unit): (s: string)
    ensures s == "" <==> n == 0
    ensures n != 0 ==> IsDigit(s[0])
  {
    if n != 0 then NatToString(n) + u.Suffix() else ""
  }

  lemma ComponentHasNoWhitespace(n: nat, u: Unit)
    ensures NoWhitespace(Component(n, u))
  {
    if n != 0 {
      var digits := NatToString(n);
      assert NoWhitespace(digits) by {
        forall i | 0 <= i < |digits| ensures !IsWhitespace(digits[i]) {
          assert IsDigit(digits[i]);
        }
      }
      NoWhitespaceConcat(digits, u.Suffix());
    }
  }

  /** The numbers `DurationWrapper::serialize` prints. */
  datatype Parts = Parts(hours: nat, minutes: nat, seconds: nat, millis: nat, nanos: nat)

  /** Whole seconds as hours, minutes below an hour and seconds below a minute. */
  lemma SecondsSplit(x: nat)
    ensures (x % 3600) % 60 == x % 60
    ensures x == (x / 3600) * 3600 + ((x % 3600) / 60) * 60 + x % 60
  {
    var a, r := x / 3600, x % 3600;
    var b, c := r / 60, r % 60;
    assert r == 60 * b + c;
    assert x == 60 * (60 * a + b) + c;
    ModSixty(x, 60 * a + b, c);
  }

  /** The remainder of `x` by 60 is the `c` of any `x == 60 * q + c` with
      `0 <= c < 60`. */
  lemma ModSixty(x: nat, q: nat, c: nat)
    requires c < 60 && x == 60 * q + c
    ensures x % 60 == c
  {
  }

  /** The split at the top of `serialize`: whole seconds into hours, minutes
      and seconds, the sub-second part into milliseconds and the nanoseconds
      below a millisecond. Recombining the parts gives the duration back. */
  function Split(d: Duration): (p: Parts)
    ensures p.minutes < 60 && p.seconds < 60 && p.millis < 1000 && p.nanos < NANOS_PER_MILLI
    ensures d.nanos == Hours.Of(p.hours) + Minutes.Of(p.minutes) + Seconds.Of(p.seconds)
                       + Millis.Of(p.millis) + p.nanos
    ensures p.nanos == d.nanos % NANOS_PER_MILLI
  {
    var totalSeconds := d.AsSecs();
    var milliseconds := d.SubsecMillis();
    var nanoseconds := d.SubsecNanos() - milliseconds * NANOS_PER_MILLI;
    var hours := totalSeconds / 3600;
    var minutes := (totalSeconds % 3600) / 60;
    var seconds := totalSeconds % 60;
    SecondsSplit(totalSeconds);
    SubsecondSplit(d.nanos);
    Parts(hours, minutes, seconds, milliseconds, nanoseconds)
  }

  /** Nanoseconds as whole seconds, milliseconds below a second and
      nanoseconds below a millisecond. */
  lemma SubsecondSplit(n: nat)
    ensures (n % 1_000_000_000) % 1_000_000 == n % 1_000_000
    ensures n == (n / 1_000_000_000) * 1_000_000_000
                 + ((n % 1_000_000_000) / 1_000_000) * 1_000_000 + n % 1_000_000
  {
    var a, r := n / 1_000_000_000, n % 1_000_000_000;
    var b, c := r / 1_000_000, r % 1_000_000;
    assert n == (a * 1000 + b) * 1_000_000 + c;
  }

  /** The string `DurationWrapper::serialize` hands to the serializer:
      hours, minutes, seconds, milliseconds and the sub-millisecond
      nanoseconds, in that order, each only when it is not zero. */
  function Serialize(d: Duration): (s: string)
    ensures NoWhitespace(s)
    ensures s == "" <==> d.nanos == 0
  {
    var p := Split(d);
    assert d.nanos == 0 <==> p == Parts(0, 0, 0, 0, 0);
    Render(p)
  }

  /** The five components, each written only when it is not zero. */
  function Render(p: Parts): (s: string)
    ensures NoWhitespace(s)
    ensures s == "" <==> p == Parts(0, 0, 0, 0, 0)
  {
    WrittenHasNoWhitespace(p);
    ComponentHasNoWhitespace(p.nanos, Nanos);
    NoWhitespaceConcat(Written(p), Component(p.nanos, Nanos));
    Written(p) + Component(p.nanos, Nanos)
  }

  lemma WrittenHasNoWhitespace(p: Parts)
    ensures NoWhitespace(Written(p))
  {
    ComponentHasNoWhitespace(p.hours, Hours);
    ComponentHasNoWhitespace(p.minutes, Minutes);
    ComponentHasNoWhitespace(p.seconds, Seconds);
    ComponentHasNoWhitespace(p.millis, Millis);
    var a, b := Component(p.hours, Hours), Component(p.minutes, Minutes);
    var c, e := Component(p.seconds, Seconds), Component(p.millis, Millis);
    NoWhitespaceConcat(a, b);
    NoWhitespaceConcat(a + b, c);
    NoWhitespaceConcat(a + b + c, e);
  }

  predicate NoWhitespace(s: string)
  {
    forall i | 0 <= i < |s| :: !IsWhitespace(s[i])
  }

  lemma NoWhitespaceConcat(a: string, b: string)
    requires NoWhitespace(a) && NoWhitespace(b)
    ensures NoWhitespace(a + b)
  {
    forall i | 0 <= i < |a + b|
      ensures !IsWhitespace((a + b)[i])
    {
      if i >= |a| {
        assert (a + b)[i] == b[i - |a|];
      }
    }
  }

  lemma {:induction false} NoWhitespaceUnchanged(s: string)
    requires NoWhitespace(s)
    ensures RemoveWhitespace(s) == s
    decreases |s|
  {
    if |s| > 0 {
      NoWhitespaceUnchanged(s[1..]);
      assert [s[0]] + s[1..] == s;
    }
  }

  /** Reading back one component adds its value in nanoseconds. After a
      minutes component the next character must not be `s`, or the `m` would
      be read as milliseconds. */
  lemma ParseComponent(n: nat, u: Unit, rest: string, parsed: nat, t: string)
    requires u != Nanos
    requires u == Minutes && |rest| > 0 ==> rest[0] != 's'
    requires t == Component(n, u) + rest
    ensures ParseLoop(t, 0, parsed) == ParseLoop(rest, 0, parsed + u.Of(n))
  {
    if n == 0 {
      assert t == rest;
      assert u.Of(n) == 0;
    } else {
      var ds := NatToString(n);
      var tail := u.Suffix() + rest;
      assert t == ds + tail;
      ParseLoopDigits(ds, tail, 0, parsed);
      AccumulateNatToString(n);
      ParseUnit(u, rest, n, parsed);
    }
  }

  /** A unit suffix adds `current` units and resets `current`. */
  lemma ParseUnit(u: Unit, rest: string, current: nat, parsed: nat)
    requires u != Nanos
    requires u == Minutes && |rest| > 0 ==> rest[0] != 's'
    ensures ParseLoop(u.Suffix() + rest, current, parsed) == ParseLoop(rest, 0, parsed + u.Of(current))
  {
    var t := u.Suffix() + rest;
    assert t[0] == u.Suffix()[0];
    assert u == Millis ==> t[1] == 's';
    assert u == Minutes ==> !(|t| > 1 && t[1] == 's');
    assert UnitAt(t) == Some(u);
    assert t[|u.Suffix()|..] == rest;
  }

  /** Serialising and parsing back gives the same duration whenever the
      duration has no sub-millisecond part. */
  lemma RoundTrip(d: Duration)
    requires d.nanos % NANOS_PER_MILLI == 0
    ensures ParseDuration(Serialize(d)) == Ok(d)
  {
    var p := Split(d);
    var whole := Written(p);
    assert Serialize(d) == whole by {
      assert Component(p.nanos, Nanos) == "";
      assert whole + "" == whole;
    }
    WrittenHasNoWhitespace(p);
    NoWhitespaceUnchanged(whole);
    ParseWritten(p, whole);
    assert d.nanos == Hours.Of(p.hours) + Minutes.Of(p.minutes)
                      + Seconds.Of(p.seconds) + Millis.Of(p.millis);
  }

  /** What `serialize` writes for parts without sub-millisecond nanoseconds. */
  function Written(p: Parts): string
  {
    Component(p.hours, Hours) + Component(p.minutes, Minutes) + Component(p.seconds, Seconds)
      + Component(p.millis, Millis)
  }

  lemma ParseWritten(p: Parts, w: string)
    requires w == Written(p)
    ensures ParseLoop(w, 0, 0) == Ok(Duration(
      Hours.Of(p.hours) + Minutes.Of(p.minutes)
      + Seconds.Of(p.seconds) + Millis.Of(p.millis)))
  {
    var a, b := Component(p.hours, Hours), Component(p.minutes, Minutes);
    var c, e := Component(p.seconds, Seconds), Component(p.millis, Millis);
    var cM := b + (c + e);
    ConcatRegroup(a, b, c, e, w);
    ParseFromMinutes(p, cM);
    var v := Millis.Of(p.millis) + Seconds.Of(p.seconds) + Minutes.Of(p.minutes);
    ParseStep(p.hours, Hours, cM, v, w);
  }

  lemma ConcatRegroup(a: string, b: string, c: string, e: string, w: string)
    requires w == a + b + c + e
    ensures w == a + (b + (c + e))
  {
  }

  /** The minutes, seconds and milliseconds components after the hours. */
  lemma ParseFromMinutes(p: Parts, cM: string)
    requires cM == Component(p.minutes, Minutes) + (Component(p.seconds, Seconds) + Component(p.millis, Millis))
    ensures ParseLoop(cM, 0, 0)
      == Ok(Duration(Millis.Of(p.millis) + Seconds.Of(p.seconds) + Minutes.Of(p.minutes)))
  {
    var cS := Component(p.seconds, Seconds) + Component(p.millis, Millis);
    ParseSecondsAndMillis(p, cS);
    ParseStep(p.minutes, Minutes, cS, Millis.Of(p.millis) + Seconds.Of(p.seconds), cM);
  }

  /** The seconds and milliseconds components at the end of the text. */
  lemma ParseSecondsAndMillis(p: Parts, cS: string)
    requires cS == Component(p.seconds, Seconds) + Component(p.millis, Millis)
    ensures ParseLoop(cS, 0, 0) == Ok(Duration(Millis.Of(p.millis) + Seconds.Of(p.seconds)))
    ensures |cS| > 0 ==> IsDigit(cS[0])
  {
    var cMs := Component(p.millis, Millis);
    ParseLast(p.millis, Millis, cMs);
    ParseStep(p.seconds, Seconds, cMs, Millis.Of(p.millis), cS);
    LeadingDigit(Component(p.seconds, Seconds), cMs);
  }

  /** A component at the very end of the text. */
  lemma ParseLast(n: nat, u: Unit, t: string)
    requires u != Nanos
    requires t == Component(n, u)
    ensures ParseLoop(t, 0, 0) == Ok(Duration(u.Of(n)))
  {
    assert ParseLoop([], 0, 0) == Ok(Duration(0));
    assert t == Component(n, u) + [];
    ParseStep(n, u, [], 0, t);
  }

  lemma LeadingDigit(a: string, b: string)
    requires |a| > 0 ==> IsDigit(a[0])
    requires |b| > 0 ==> IsDigit(b[0])
    ensures |a + b| > 0 ==> IsDigit((a + b)[0])
  {
    if |a| == 0 {
      assert a + b == b;
    }
  }

  /** One component in front of an already parsed suffix: `t` is the
      component followed by `rest`. */
  lemma ParseStep(n: nat, u: Unit, rest: string, v: nat, t: string)
    requires u != Nanos
    requires u == Minutes && |rest| > 0 ==> rest[0] != 's'
    requires ParseLoop(rest, 0, 0) == Ok(Duration(v))
    requires t == Component(n, u) + rest
    ensures ParseLoop(t, 0, 0) == Ok(Duration(v + u.Of(n)))
  {
    ParseComponent(n, u, rest, 0, t);
    ShiftOk(t, rest, v, u.Of(n));
  }

  /** When `t` parses as `rest` does after `e` nanoseconds, and `rest` alone
      parses to `v`, then `t` parses to `v + e`. */
  lemma ShiftOk(t: string, rest: string, v: nat, e: nat)
    requires ParseLoop(t, 0, 0) == ParseLoop(rest, 0, e)
    requires ParseLoop(rest, 0, 0) == Ok(Duration(v))
    ensures ParseLoop(t, 0, 0) == Ok(Duration(v + e))
  {
    ParseLoopShiftFrom(rest, 0, 0, e);
  }

  /** Starting from a larger `parsed` shifts an `Ok` result by the same amount. */
  lemma {:induction false} ParseLoopShiftFrom(cs: string, current: nat, parsed: nat, extra: nat)
    ensures ParseLoop(cs, current, parsed + extra).Ok? <==> ParseLoop(cs, current, parsed).Ok?
    ensures ParseLoop(cs, current, parsed).Ok? ==>
      ParseLoop(cs, current, parsed + extra).value.nanos == ParseLoop(cs, current, parsed).value.nanos + extra
    decreases |cs|
  {
    if |cs| > 0 {
      if IsDigit(cs[0]) {
        ParseLoopShiftFrom(cs[1..], 10 * current + DigitValue(cs[0]), parsed, extra);
      } else if UnitAt(cs).Some? {
        var u := UnitAt(cs).value;
        var gain := u.Of(current);
        assert parsed + extra + gain == (parsed + gain) + extra;
        ParseLoopShiftFrom(cs[|u.Suffix()|..], 0, parsed + gain, extra);
      }
    }
  }

  /** A duration with a sub-millisecond part serialises with an `ns` suffix,
      which the parser rejects. */
  lemma SubMillisecondsDoNotRoundTrip(d: Duration)
    requires d.nanos % NANOS_PER_MILLI != 0
    ensures ParseDuration(Serialize(d)) == Err(INVALID_UNIT)
  {
    var p := Split(d);
    var prefix := Component(p.hours, Hours) + Component(p.minutes, Minutes)
      + Component(p.seconds, Seconds) + Component(p.millis, Millis);
    var ns := NatToString(p.nanos);
    var s := Serialize(d);
    assert s == prefix + (ns + "ns");
    var k := |prefix| + |ns|;
    assert s[k] == 'n';
    assert IsInvalidUnit(s[k]);
    ParseFailsIffInvalidUnit(s);
  }
}
