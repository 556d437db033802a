/** The audit section of the profile page (the later `designAudits`, which
    is the one in effect): the ratio of bytes audited to bytes received,
    rounded to one decimal, its status line, its colour, and the two bar
    lengths in megabytes. */
module Audit {
  import opened Wrappers
  import opened Units

  /** `Math.round(totalUp / totalDown * 10) / 10` as a number of tenths, or
      the two values a JavaScript division by zero gives. */
  datatype Ratio = Tenths(tenths: int) | PosInfinity | NotANumber

  const AlmostPerfect: string := "Almost perfect!"
  const BeCareful: string := "Be careful, buddy."
  /** Both branches of the colour ternary pick this colour. */
  const Teal: string := "hsl(181, 50%, 53%)"

  /** What the audit section shows. `doneMb` and `receivedMb` are the bar
      lengths in hundredths of a megabyte, `undefined` for zero bytes. */
  datatype AuditView = AuditView(ratio: Ratio, status: string, colour: string,
                                 doneMb: Option<int>, receivedMb: Option<int>)

  /** The ratio: the nearest tenth of `up / down`, a half rounded up. With
      `down == 0` the division gives `Infinity`, or `NaN` when `up` is 0 too. */
  function AuditRatio(up: nat, down: nat): (r: Ratio)
    ensures down > 0 ==> r.Tenths? && -(down as int) < 2 * (down * r.tenths - 10 * up) <= down
    ensures down == 0 && up > 0 ==> r == PosInfinity
    ensures down == 0 && up == 0 ==> r == NotANumber
  {
    if down == 0 then (if up > 0 then PosInfinity else NotANumber)
    else Tenths(RoundHalfUp(10 * up, down))
  }

  /** `auditR > 0.4`: more than four tenths; `Infinity` passes, `NaN` fails. */
  predicate AboveThreshold(r: Ratio) {
    match r
    case Tenths(t) => t > 4
    case PosInfinity => true
    case NotANumber => false
  }

  /** For a nonzero denominator the rounded ratio exceeds 0.4 exactly when
      the exact ratio is at least 0.45. */
  lemma AboveThresholdIff(up: nat, down: nat)
    requires down > 0
    ensures AboveThreshold(AuditRatio(up, down)) <==> 20 * up >= 9 * down
  {
    var t := AuditRatio(up, down).tenths;
    if t >= 5 {
      MulLeftMonotone(down, 5, t);
    } else {
      MulLeftMonotone(down, t, 4);
    }
  }

  /** The later `designAudits` without its DOM writes. */
  function DesignAudits(up: nat, down: nat): (v: AuditView)
    ensures v.ratio == AuditRatio(up, down)
    ensures v.status == AlmostPerfect <==> AboveThreshold(v.ratio)
    ensures down > 0 ==> (v.status == AlmostPerfect <==> 20 * up >= 9 * down)
    ensures down == 0 ==> (v.status == AlmostPerfect <==> up > 0)
    ensures v.status == AlmostPerfect || v.status == BeCareful
    ensures v.colour == Teal
    ensures v.doneMb.None? <==> up == 0
    ensures v.receivedMb.None? <==> down == 0
    ensures v.doneMb.Some? ==> -1000000 < 2 * (1000000 * v.doneMb.value - 100 * up) <= 1000000
    ensures v.receivedMb.Some? ==> -1000000 < 2 * (1000000 * v.receivedMb.value - 100 * down) <= 1000000
    ensures v.doneMb == Amount(BytesConversion(up, "MB"))
    ensures v.receivedMb == Amount(BytesConversion(down, "MB"))
  {
    var ratio := AuditRatio(up, down);
    assert down > 0 ==> (AboveThreshold(ratio) <==> 20 * up >= 9 * down) by {
      if down > 0 {
        AboveThresholdIff(up, down);
      }
    }
    assert IndexOf(Sizes, "MB") == 2 && Pow1000(2) == 1000000 && Sizes[2] == "MB";
    assert up != 0 ==> BytesConversion(up, "MB") == Converted(RoundHalfAway(100 * up, 1000000), Some("MB")) by {
      if up != 0 {
        ListedConversion(up, 2);
      }
    }
    assert down != 0 ==> BytesConversion(down, "MB") == Converted(RoundHalfAway(100 * down, 1000000), Some("MB")) by {
      if down != 0 {
        ListedConversion(down, 2);
      }
    }
    var status := if AboveThreshold(ratio) then AlmostPerfect else BeCareful;
    AuditView(ratio, status, Teal, Amount(BytesConversion(up, "MB")), Amount(BytesConversion(down, "MB")))
  }

  /** Auditing 1 000 000 bytes against 2 000 000 received is a ratio of 0.5,
      which passes the threshold. */
  lemma HalfRatioPasses()
    ensures AuditRatio(1000000, 2000000) == Tenths(5)
    ensures DesignAudits(1000000, 2000000).status == AlmostPerfect
  {
  }
}
