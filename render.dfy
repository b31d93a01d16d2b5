/** The status text the timer shows: a phase label with the remaining time and the cycle
    count, or the start prompt, always followed by the quit hint. */
module Render {
  import opened Timer

  datatype Option<T> = None | Some(value: T)

  const Footer: string := "\nPress q to quit."
  const IdlePrompt: string := "Press 's' to start the timer."
  const Rule: string := "*********************\n"

  predicate EndsWith(s: string, suffix: string) {
    |suffix| <= |s| && s[|s| - |suffix|..] == suffix
  }

  predicate IsDigit(c: char) {
    '0' <= c <= '9'
  }

  /** The decimal digits of n, most significant first, without leading zeros. */
  function NatDigits(n: nat): (s: string)
    ensures |s| >= 1 && forall i :: 0 <= i < |s| ==> IsDigit(s[i])
    ensures |s| > 1 ==> s[0] != '0'
    decreases n
  {
    var last := ('0' as int + n % 10) as char;
    if n < 10 then [last] else NatDigits(n / 10) + [last]
  }

  /** An integer as Go's `%v` verb prints it: decimal, with a minus sign when negative. */
  function Decimal(n: int): (s: string)
    ensures |s| >= 1
    ensures (s[0] == '-') <==> n < 0
    ensures forall i :: 0 < i < |s| ==> IsDigit(s[i])
    ensures n >= 0 ==> IsDigit(s[0])
  {
    if n < 0 then "-" + NatDigits(-n) else NatDigits(n)
  }

  /** The value of a string of decimal digits. The `% 10` only keeps the result a `nat`:
      on the digit strings NatDigits produces it changes nothing. */
  function ParseNat(s: string): nat
    decreases |s|
  {
    if s == [] then 0
    else 10 * ParseNat(s[..|s| - 1]) + ((s[|s| - 1] as int - '0' as int) % 10)
  }

  function ParseDecimal(s: string): (n: int) {
    if |s| > 0 && s[0] == '-' then 0 - ParseNat(s[1..]) else ParseNat(s)
  }

  lemma {:induction false} NatDigitsRoundTrip(n: nat)
    ensures ParseNat(NatDigits(n)) == n
    decreases n
  {
    var s := NatDigits(n);
    if n >= 10 {
      assert s[..|s| - 1] == NatDigits(n / 10);
      NatDigitsRoundTrip(n / 10);
    }
  }

  /** The cycle count printed in the status can be read back exactly. */
  lemma DecimalRoundTrip(n: int)
    ensures ParseDecimal(Decimal(n)) == n
  {
    if n < 0 {
      assert Decimal(n)[1..] == NatDigits(-n);
      NatDigitsRoundTrip(-n);
    } else {
      NatDigitsRoundTrip(n);
    }
  }

  function Label(p: Phase): string {
    match p
    case Study => "Study time!"
    case Break => "Break time!"
    case BigBreak => "Big Break time!"
    case Idle => ""
  }

  /** The status string for m. `duration` stands for Go's Duration.String(), a library
      formatting routine this model does not describe. */
  function View(m: Model, duration: int -> string): (v: string)
    ensures EndsWith(v, Footer)
    ensures !m.running ==> v == IdlePrompt + Footer
    ensures m.running ==> Rule + Label(PhaseOf(m)) <= v
    ensures m.running ==> EndsWith(v, ", Elapsed: " + Decimal(m.cycle) + " cycles" + Footer)
  {
    var status :=
      if m.running then
        Rule + Label(PhaseOf(m)) + " Time remaining: " + duration(m.remaining)
          + ", Elapsed: " + Decimal(m.cycle) + " cycles"
      else IdlePrompt;
    status + Footer
  }

  /** Reads the phase back from a status string. */
  function ShownPhase(v: string): Option<Phase> {
    if Rule + Label(BigBreak) <= v then Some(BigBreak)
    else if Rule + Label(Break) <= v then Some(Break)
    else if Rule + Label(Study) <= v then Some(Study)
    else if v == IdlePrompt + Footer then Some(Idle)
    else None
  }

  /** The label shown is the timer's phase: the start prompt when not running, "Big Break
      time!" on a break whose cycle count is a multiple of four, "Break time!" on any other
      break, "Study time!" otherwise, whatever the duration formatting prints. */
  lemma {:induction false} ViewShowsPhase(m: Model, duration: int -> string)
    ensures ShownPhase(View(m, duration)) == Some(PhaseOf(m))
  {
    var v := View(m, duration);
    var p := PhaseOf(m);
    if m.running {
      assert Rule + Label(p) <= v;
      if p == Break {
        assert v[|Rule|] == 'B' && v[|Rule| + 1] == 'r';
        assert !(Rule + Label(BigBreak) <= v) by {
          assert (Rule + Label(BigBreak))[|Rule| + 1] == 'i';
        }
      } else if p == Study {
        assert v[|Rule|] == 'S';
        assert !(Rule + Label(BigBreak) <= v) by {
          assert (Rule + Label(BigBreak))[|Rule|] == 'B';
        }
        assert !(Rule + Label(Break) <= v) by {
          assert (Rule + Label(Break))[|Rule|] == 'B';
        }
      }
    } else {
      assert v[0] == 'P';
      assert !(Rule + Label(BigBreak) <= v) by { assert (Rule + Label(BigBreak))[0] == '*'; }
      assert !(Rule + Label(Break) <= v) by { assert (Rule + Label(Break))[0] == '*'; }
      assert !(Rule + Label(Study) <= v) by { assert (Rule + Label(Study))[0] == '*'; }
    }
  }
}
