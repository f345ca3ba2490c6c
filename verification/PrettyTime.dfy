/** Printing a number of seconds as days, hours, minutes and seconds (src/utils.h). */
module PrettyTime {
  datatype Unit = Day | Hour | Minute | Second

  datatype Field = Field(value: nat, unit: Unit)

  const UNITS: seq<Unit> := [Day, Hour, Minute, Second]

  function SecsIn(u: Unit): nat {
    match u
    case Day => 86400
    case Hour => 3600
    case Minute => 60
    case Second => 1
  }

  /** How many of a unit make one of the next larger unit; there is none above the day. */
  predicate BelowRadix(f: Field) {
    match f.unit
    case Day => true
    case Hour => f.value < 24
    case Minute => f.value < 60
    case Second => f.value < 60
  }

  function Decode(fields: seq<Field>): nat {
    if fields == [] then 0 else Decode(fields[..|fields| - 1]) + Worth(fields[|fields| - 1])
  }

  function Worth(f: Field): nat {
    match f.unit
    case Day => 86400 * f.value
    case Hour => 3600 * f.value
    case Minute => 60 * f.value
    case Second => f.value
  }

  /** The fields are the last |fields| units in order, each below its radix but for the first. */
  ghost predicate MixedRadix(fields: seq<Field>) {
    && |fields| <= 4
    && (forall i :: 0 <= i < |fields| ==> fields[i].unit == UNITS[4 - |fields| + i])
    && (forall i :: 1 <= i < |fields| ==> BelowRadix(fields[i]))
  }

  /** The loop body for one unit, with its guard. */
  method PrintUnit(seconds: nat, printNext: bool, unit: Unit) returns (fields: seq<Field>, rest: nat)
    ensures seconds > SecsIn(unit) || printNext ==>
              |fields| == 1 && fields[0].unit == unit && Worth(fields[0]) + rest == seconds && rest < SecsIn(unit)
    ensures !(seconds > SecsIn(unit) || printNext) ==> fields == [] && rest == seconds
  {
    if seconds > SecsIn(unit) || printNext {
      var value := seconds / SecsIn(unit);
      fields, rest := [Field(value, unit)], seconds - value * SecsIn(unit);
    } else {
      fields, rest := [], seconds;
    }
  }

  /** The state before unit `i`: nothing printed yet, or mixed radix fields and less than one larger unit left. */
  ghost predicate Progress(fields: seq<Field>, rest: nat, i: nat, seconds: nat)
    requires i <= 4
  {
    && |fields| <= i
    && (forall j :: 0 <= j < |fields| ==> fields[j].unit == UNITS[i - |fields| + j])
    && (forall j :: 1 <= j < |fields| ==> BelowRadix(fields[j]))
    && Decode(fields) + rest == seconds
    && (fields == [] ==> i > 0 ==> seconds <= SecsIn(UNITS[i - 1]))
    && (fields != [] ==> rest < SecsIn(UNITS[i - 1]) && LeadingField(fields[0], seconds))
  }

  lemma ProgressStep(fields: seq<Field>, rest: nat, i: nat, seconds: nat, f: Field, left: nat)
    requires i < 4 && Progress(fields, rest, i, seconds)
    requires rest > SecsIn(UNITS[i]) || fields != []
    requires f.unit == UNITS[i] && Worth(f) + left == rest && left < SecsIn(UNITS[i])
    ensures Progress(fields + [f], left, i + 1, seconds)
  {
    DecodeSnoc(fields, f);
    if fields == [] {
      assert Decode([]) == 0;
      assert LeadingField(f, seconds);
    } else {
      assert BelowRadix(f);
    }
  }

  method PrettyPrintTime(seconds: nat) returns (fields: seq<Field>)
    ensures seconds < 2 <==> fields == []
    ensures seconds >= 2 ==> MixedRadix(fields) && Decode(fields) == seconds && fields[0].value > 0
    // The first field reaches its radix exactly for one day, one hour or one minute sharp.
    ensures seconds >= 2 ==> (BelowRadix(fields[0]) <==> seconds !in {60, 3600, 86400})
    ensures seconds >= 2 && !BelowRadix(fields[0]) ==> Worth(fields[0]) == seconds
  {
    hide Progress, MixedRadix, LeadingField, Decode, Worth, SecsIn, BelowRadix;
    var rest: nat, printNext := seconds, false;
    fields := [];
    Start(seconds);
    for i := 0 to 4
      invariant printNext <==> fields != []
      invariant Progress(fields, rest, i, seconds)
    {
      var more, left := PrintUnit(rest, printNext, UNITS[i]);
      if more != [] {
        ProgressStep(fields, rest, i, seconds, more[0], left);
        assert fields + more == fields + [more[0]];
        fields := fields + more;
      } else {
        NothingYet(rest, i, seconds);
      }
      rest, printNext := left, printNext || more != [];
    }
    Printed(fields, rest, seconds);
  }

  lemma Start(seconds: nat)
    ensures Progress([], seconds, 0, seconds)
  {
  }

  lemma NothingYet(rest: nat, i: nat, seconds: nat)
    requires i < 4 && Progress([], rest, i, seconds) && rest <= SecsIn(UNITS[i])
    ensures Progress([], rest, i + 1, seconds)
  {
  }

  lemma Printed(fields: seq<Field>, rest: nat, seconds: nat)
    requires Progress(fields, rest, 4, seconds)
    ensures seconds < 2 <==> fields == []
    ensures seconds >= 2 ==> MixedRadix(fields) && Decode(fields) == seconds && fields[0].value > 0
    ensures seconds >= 2 ==> (BelowRadix(fields[0]) <==> seconds !in {60, 3600, 86400})
    ensures seconds >= 2 && !BelowRadix(fields[0]) ==> Worth(fields[0]) == seconds
  {
  }

  /** What is printed first: not zero, and at its radix only when nothing is left. */
  ghost predicate LeadingField(f: Field, seconds: nat) {
    && f.value > 0
    && seconds >= 2
    && (BelowRadix(f) <==> seconds !in {60, 3600, 86400})
    && (!BelowRadix(f) ==> Worth(f) == seconds)
  }

  lemma DecodeSnoc(fields: seq<Field>, f: Field)
    ensures Decode(fields + [f]) == Decode(fields) + Worth(f)
  {
    assert (fields + [f])[..|fields|] == fields;
  }
}
