/**
 Classification of the suspects and the status line: each suspect is
 expiring (fewer than thirty days left), expired (fewer than thirty days
 ago) or neither; the report lists the expired ones, then the expiring ones,
 and the process exit status follows the Nagios plugin convention.

 Python 2 iterates over a dict in an order it does not promise, so the
 order in which the suspects are visited is a parameter here: any sequence
 listing every suspect once.
 */
module Report {
  import Text
  import Wrappers

  /** The four Nagios plugin states. */
  datatype State = Ok | Warning | Critical | Unknown

  /** The exit status a plugin reports each state with. */
  function Code(s: State): (c: nat)
    ensures c <= 3
  {
    match s
    case Ok => 0
    case Warning => 1
    case Critical => 2
    case Unknown => 3
  }

  /** How a monitoring host reads an exit status back. */
  function StateOf(code: int): (s: Wrappers.Option<State>)
  {
    if code == 0 then Wrappers.Some(Ok)
    else if code == 1 then Wrappers.Some(Warning)
    else if code == 2 then Wrappers.Some(Critical)
    else if code == 3 then Wrappers.Some(Unknown)
    else Wrappers.None
  }

  /** Every state is read back from its exit status, and only statuses 0-3
      are read as states. */
  lemma CodeRoundTrip(s: State, code: int)
    ensures StateOf(Code(s)) == Wrappers.Some(s)
    ensures StateOf(code).Some? <==> 0 <= code <= 3
    ensures StateOf(code).Some? ==> Code(StateOf(code).value) == code
  {
  }

  /** Days the warning window spans, and days an expired certificate is
      still reported for. */
  const Window: int := 30

  /** The state a single suspect puts the check into. */
  function Severity(days: int): (s: State)
    ensures s == Warning <==> 0 <= days < Window
    ensures s == Critical <==> -Window < days < 0
    ensures s == Ok <==> days >= Window || days <= -Window
    ensures s != Unknown
  {
    if days >= 0 && days < Window then Warning
    else if days < 0 && days > -Window then Critical
    else Ok
  }

  /** One line of the status text about one suspect. */
  datatype Notice = Notice(cn: string, days: int)

  /** `"(EXPIRES in %d days) %s "` */
  function ExpiringText(n: Notice): string
    requires n.days >= 0
  {
    "(EXPIRES in " + Text.Decimal(n.days) + " days) " + n.cn + " "
  }

  /** `"(EXPIRED %d days ago) %s "`, with the day count made positive. */
  function ExpiredText(n: Notice): string
    requires n.days < 0
  {
    "(EXPIRED " + Text.Decimal(-n.days) + " days ago) " + n.cn + " "
  }

  /** Text of a notice of the given state. */
  function NoticeText(n: Notice, level: State): (t: string)
    requires level == Warning ==> n.days >= 0
    requires level == Critical ==> n.days < 0
    ensures level in {Warning, Critical} ==> |t| > 0 && t[0] == '('
    ensures level in {Warning, Critical} ==> t[|t| - 1] == ' '
    ensures level == Warning ==>
              exists d :: Text.Spells(d, n.days) && t == "(EXPIRES in " + d + " days) " + n.cn + " "
    ensures level == Critical ==>
              exists d :: Text.Spells(d, -n.days) && t == "(EXPIRED " + d + " days ago) " + n.cn + " "
  {
    match level
    case Warning =>
      Text.DecimalSpells(n.days);
      ExpiringText(n)
    case Critical =>
      Text.DecimalSpells(-n.days);
      ExpiredText(n)
    case _ => ""
  }

  /** The order visits every suspect exactly once. */
  predicate Enumerates(order: seq<string>, suspects: map<string, int>)
  {
    && (forall i, j :: 0 <= i < j < |order| ==> order[i] != order[j])
    && (forall cn :: cn in suspects ==> cn in order)
    && WithinKeys(order, suspects)
  }

  /** The order visits only suspects. */
  predicate WithinKeys(order: seq<string>, suspects: map<string, int>)
  {
    forall i :: 0 <= i < |order| ==> order[i] in suspects
  }

  /** The notices of the given state, in the order the suspects are visited. */
  function Selected(suspects: map<string, int>, order: seq<string>, level: State): (ns: seq<Notice>)
    requires WithinKeys(order, suspects)
    ensures forall n :: n in ns <==>
              n.cn in order && n.cn in suspects && n.days == suspects[n.cn] && Severity(n.days) == level
    ensures (forall i, j :: 0 <= i < j < |order| ==> order[i] != order[j]) ==>
              forall i, j :: 0 <= i < j < |ns| ==> ns[i].cn != ns[j].cn
    ensures |ns| <= |order|
  {
    if |order| == 0 then []
    else
      var cn := order[|order| - 1];
      var init := Selected(suspects, order[..|order| - 1], level);
      assert forall c :: c in order <==> c in order[..|order| - 1] || c == cn;
      if Severity(suspects[cn]) == level then
        assert (forall i, j :: 0 <= i < j < |order| ==> order[i] != order[j]) ==>
                 forall i :: 0 <= i < |init| ==> init[i] in init && init[i].cn != cn;
        init + [Notice(cn, suspects[cn])]
      else init
  }

  /** Concatenated texts of notices of one state. */
  function Render(ns: seq<Notice>, level: State): (t: string)
    requires level in {Warning, Critical}
    requires forall n :: n in ns ==> Severity(n.days) == level
    ensures t == "" <==> |ns| == 0
  {
    if |ns| == 0 then ""
    else
      assert ns[|ns| - 1] in ns;
      assert Severity(ns[|ns| - 1].days) == level;
      Render(ns[..|ns| - 1], level) + NoticeText(ns[|ns| - 1], level)
  }

  /** The `critical` accumulator after visiting `order`. */
  function CriticalText(suspects: map<string, int>, order: seq<string>): string
    requires WithinKeys(order, suspects)
  {
    Render(Selected(suspects, order, Critical), Critical)
  }

  /** The `warning` accumulator after visiting `order`. */
  function WarningText(suspects: map<string, int>, order: seq<string>): string
    requires WithinKeys(order, suspects)
  {
    Render(Selected(suspects, order, Warning), Warning)
  }

  /** Visiting one more suspect appends at most one entry to one of the
      two texts: an expiring one to the warning text, an expired one to the
      critical text. */
  lemma TextsStep(suspects: map<string, int>, order: seq<string>, cn: string)
    requires WithinKeys(order, suspects) && cn in suspects
    ensures var n := Notice(cn, suspects[cn]);
            WarningText(suspects, order + [cn]) ==
              WarningText(suspects, order) + (if 0 <= n.days < Window then ExpiringText(n) else "")
    ensures var n := Notice(cn, suspects[cn]);
            CriticalText(suspects, order + [cn]) ==
              CriticalText(suspects, order) + (if -Window < n.days < 0 then ExpiredText(n) else "")
  {
    assert (order + [cn])[..|order|] == order;
  }

  /** The status line and the exit status chosen from the two accumulators. */
  function Decide(critical: string, warning: string): (string, nat)
  {
    if critical != "" then ("CRITICAL - " + critical + warning, Code(Critical))
    else if warning != "" then ("WARNING - " + warning, Code(Warning))
    else ("OK", Code(Ok))
  }

  /** The worst state any suspect is in, defined without reference to any
      visiting order. */
  ghost function Worst(suspects: map<string, int>): State
  {
    if exists cn :: cn in suspects && Severity(suspects[cn]) == Critical then Critical
    else if exists cn :: cn in suspects && Severity(suspects[cn]) == Warning then Warning
    else Ok
  }

  /** The report for the suspects, visited in `order`. */
  function Summarize(suspects: map<string, int>, order: seq<string>): (r: (string, nat))
    requires Enumerates(order, suspects)
    ensures r.1 == Code(Worst(suspects))
    ensures r.1 == Code(Critical) ==>
              r.0 == "CRITICAL - " + CriticalText(suspects, order) + WarningText(suspects, order)
    ensures r.1 == Code(Warning) ==> r.0 == "WARNING - " + WarningText(suspects, order)
    ensures r.1 == Code(Ok) <==> r.0 == "OK"
  {
    var critical := CriticalText(suspects, order);
    var warning := WarningText(suspects, order);
    SelectedNonEmpty(suspects, order, Critical);
    SelectedNonEmpty(suspects, order, Warning);
    Decide(critical, warning)
  }

  /** The exit status in terms of day counts: 2 exactly when some suspect
      expired less than thirty days ago, 1 exactly when none did and some
      expires in less than thirty days, and 0 otherwise, in particular for
      an empty suspect map. */
  lemma ExitStatusByDays(suspects: map<string, int>, order: seq<string>)
    requires Enumerates(order, suspects)
    ensures var critical := exists cn :: cn in suspects && -Window < suspects[cn] < 0;
            var warning := exists cn :: cn in suspects && 0 <= suspects[cn] < Window;
            && (Summarize(suspects, order).1 == 2 <==> critical)
            && (Summarize(suspects, order).1 == 1 <==> !critical && warning)
            && (Summarize(suspects, order).1 == 0 <==> !critical && !warning)
    ensures suspects == map[] ==> Summarize(suspects, order) == ("OK", 0)
  {
    if exists cn :: cn in suspects && -Window < suspects[cn] < 0 {
      var cn :| cn in suspects && -Window < suspects[cn] < 0;
      assert Severity(suspects[cn]) == Critical;
    }
    if exists cn :: cn in suspects && 0 <= suspects[cn] < Window {
      var cn :| cn in suspects && 0 <= suspects[cn] < Window;
      assert Severity(suspects[cn]) == Warning;
    }
  }

  /** A visiting order selects some notice of a state exactly when some
      suspect is in that state. */
  lemma SelectedNonEmpty(suspects: map<string, int>, order: seq<string>, level: State)
    requires Enumerates(order, suspects)
    ensures |Selected(suspects, order, level)| > 0 <==>
              exists cn :: cn in suspects && Severity(suspects[cn]) == level
  {
    var ns := Selected(suspects, order, level);
    if |ns| > 0 {
      assert ns[0] in ns;
    }
    if exists cn :: cn in suspects && Severity(suspects[cn]) == level {
      var cn :| cn in suspects && Severity(suspects[cn]) == level;
      assert Notice(cn, suspects[cn]) in ns;
    }
  }

  /** The report does not depend on the order the suspects are visited in
      beyond the order of its entries: any two orders select the same
      notices and end in the same state. */
  lemma OrderIndependent(suspects: map<string, int>, o1: seq<string>, o2: seq<string>, level: State)
    requires Enumerates(o1, suspects) && Enumerates(o2, suspects)
    ensures forall n :: n in Selected(suspects, o1, level) <==> n in Selected(suspects, o2, level)
    ensures |Selected(suspects, o1, level)| == |Selected(suspects, o2, level)|
    ensures Summarize(suspects, o1).1 == Summarize(suspects, o2).1
  {
    var s1 := Selected(suspects, o1, level);
    var s2 := Selected(suspects, o2, level);
    DistinctCardinality(s1, s2);
    DistinctCardinality(s2, s1);
  }

  /** A sequence of notices with distinct names that are all found in
      another sequence is no longer than it. */
  lemma {:induction false} DistinctCardinality(a: seq<Notice>, b: seq<Notice>)
    requires forall i, j :: 0 <= i < j < |a| ==> a[i].cn != a[j].cn
    requires forall n :: n in a ==> n in b
    ensures |a| <= |b|
  {
    var sa := set i | 0 <= i < |a| :: a[i];
    var sb := set i | 0 <= i < |b| :: b[i];
    forall x | x in sa
      ensures x in sb
    {
      var i :| 0 <= i < |a| && a[i] == x;
      assert a[i] in a;
      var j :| 0 <= j < |b| && b[j] == x;
    }
    assert |sa| <= |sb| by {
      assert sb == sa + (sb - sa);
    }
    IndexSetSize(a);
    SetOfSeqSize(b);
  }

  /** Distinct elements of a sequence form a set of the same size. */
  lemma {:induction false} IndexSetSize(a: seq<Notice>)
    requires forall i, j :: 0 <= i < j < |a| ==> a[i].cn != a[j].cn
    ensures |set i | 0 <= i < |a| :: a[i]| == |a|
  {
    if |a| > 0 {
      var n := |a| - 1;
      IndexSetSize(a[..n]);
      var s0 := set i | 0 <= i < n :: a[..n][i];
      var s := set i | 0 <= i < |a| :: a[i];
      assert s == s0 + {a[n]};
      assert a[n] !in s0;
    }
  }

  /** The elements of a sequence form a set no larger than it. */
  lemma {:induction false} SetOfSeqSize(b: seq<Notice>)
    ensures |set i | 0 <= i < |b| :: b[i]| <= |b|
  {
    if |b| > 0 {
      var n := |b| - 1;
      SetOfSeqSize(b[..n]);
      var s0 := set i | 0 <= i < n :: b[..n][i];
      var s := set i | 0 <= i < |b| :: b[i];
      assert s == s0 + {b[n]};
    }
  }

  /** The report for a single suspect. */
  lemma SingleSuspect(cn: string, days: int)
    ensures var m, order, n := map[cn := days], [cn], Notice(cn, days);
            Summarize(m, order) ==
              if 0 <= days < Window then ("WARNING - " + ExpiringText(n), 1)
              else if -Window < days < 0 then ("CRITICAL - " + ExpiredText(n), 2)
              else ("OK", 0)
  {
    var m, order, n := map[cn := days], [cn], Notice(cn, days);
    var crit, warn := SingleTexts(cn, days);
    assert Summarize(m, order) == Decide(crit, warn);
    if -Window < days < 0 {
      assert "CRITICAL - " + crit + warn == "CRITICAL - " + ExpiredText(n);
    }
  }

  /** The two texts for a single suspect. */
  lemma SingleTexts(cn: string, days: int) returns (crit: string, warn: string)
    ensures Enumerates([cn], map[cn := days])
    ensures crit == CriticalText(map[cn := days], [cn])
    ensures warn == WarningText(map[cn := days], [cn])
    ensures crit == if -Window < days < 0 then ExpiredText(Notice(cn, days)) else ""
    ensures warn == if 0 <= days < Window then ExpiringText(Notice(cn, days)) else ""
  {
    var m, order, n := map[cn := days], [cn], Notice(cn, days);
    crit := CriticalText(m, order);
    warn := WarningText(m, order);
    SingleSelected(cn, days, Critical);
    SingleSelected(cn, days, Warning);
    if -Window < days < 0 {
      RenderOne(n, Critical);
    }
    if 0 <= days < Window {
      RenderOne(n, Warning);
    }
  }

  lemma SingleSelected(cn: string, days: int, level: State)
    ensures Selected(map[cn := days], [cn], level) ==
              if Severity(days) == level then [Notice(cn, days)] else []
  {
    assert [cn][..0] == [];
  }

  lemma RenderOne(n: Notice, level: State)
    requires level in {Warning, Critical} && Severity(n.days) == level
    ensures Render([n], level) == NoticeText(n, level)
  {
    assert [n][..0] == [];
  }

  /** One suspect ten days from expiry gives a warning with that count. */
  lemma SingleExpiringExample(cn: string)
    ensures Summarize(map[cn := 10], [cn]) == ("WARNING - (EXPIRES in 10 days) " + cn + " ", 1)
  {
    SingleSuspect(cn, 10);
    WarningTenDays(cn);
  }

  /** One suspect expired five days ago makes the check critical and
      reports the count as a positive number. */
  lemma SingleExpiredExample(cn: string)
    ensures Summarize(map[cn := -5], [cn]) == ("CRITICAL - (EXPIRED 5 days ago) " + cn + " ", 2)
  {
    SingleSuspect(cn, -5);
    CriticalFiveDays(cn);
  }

  lemma CriticalFiveDays(cn: string)
    ensures "CRITICAL - " + ExpiredText(Notice(cn, -5)) == "CRITICAL - (EXPIRED 5 days ago) " + cn + " "
  {
    var five := Text.Decimal(5);
    assert five == "5";
    var t := ExpiredText(Notice(cn, -5));
    assert t == "(EXPIRED " + five + " days ago) " + cn + " ";
  }

  lemma WarningTenDays(cn: string)
    ensures "WARNING - " + ExpiringText(Notice(cn, 10)) == "WARNING - (EXPIRES in 10 days) " + cn + " "
  {
    var ten := Text.Decimal(10);
    assert ten == "10" by {
      assert Text.Decimal(1) == "1";
    }
    var t := ExpiringText(Notice(cn, 10));
    assert t == "(EXPIRES in " + ten + " days) " + cn + " ";
  }
}
