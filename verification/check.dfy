/**
 One run of the checker: open the ledger named by the first argument,
 build the suspect map, visit the suspects in whatever order the map
 yields them while accumulating the two texts, and end with a status line
 and an exit status.

 Opening and reading the file is the parameter `readFile` (None where
 `open` raises); the clock and the timestamp parser are those of
 the Ledger module. Standard error is not modelled.
 */
module Check {
  import opened Wrappers
  import Text
  import Ledger
  import Report
  import CommonName

  /** How a run ends. */
  datatype Outcome =
    | Exit(stdout: string, status: nat)  // a status line printed, then `sys.exit(status)`
    | Aborted(error: Ledger.ParseError)   // an exception nobody catches

  /** The whole script: `args` are the command-line arguments after the
      program name. */
  method Run(args: seq<string>, readFile: string -> Option<string>, strptime: Ledger.Strptime, now: int)
    returns (o: Outcome)
    ensures |args| == 0 ==> o == Exit("", Report.Code(Report.Unknown))
    ensures |args| > 0 && readFile(args[0]).None? ==> o == Exit("", Report.Code(Report.Unknown))
    ensures |args| > 0 && readFile(args[0]).Some? ==>
              var b := Ledger.Build(Text.Lines(readFile(args[0]).value), strptime, now);
              && (b.Err? ==> o == Aborted(b.error))
              && (b.Ok? ==> o.Exit? && o.status == Report.Code(Report.Worst(b.value)))
              && (b.Ok? ==> exists order :: Report.Enumerates(order, b.value) &&
                               (o.stdout, o.status) == Report.Summarize(b.value, order))
  {
    if |args| == 0 {
      return Exit("", Report.Code(Report.Unknown));
    }
    var text := readFile(args[0]);
    if text.None? {
      return Exit("", Report.Code(Report.Unknown));
    }
    var built := Ledger.Build(Text.Lines(text.value), strptime, now);
    if built.Err? {
      return Aborted(built.error);
    }
    var critical, warning, order := Accumulate(built.value);
    o := Exit(Report.Decide(critical, warning).0, Report.Decide(critical, warning).1);
    assert (o.stdout, o.status) == Report.Summarize(built.value, order);
  }

  /** The loop over the suspect map: `order` is the order the map happened
      to yield its keys in. */
  method Accumulate(suspects: map<string, int>) returns (critical: string, warning: string, order: seq<string>)
    ensures Report.Enumerates(order, suspects)
    ensures critical == Report.CriticalText(suspects, order)
    ensures warning == Report.WarningText(suspects, order)
  {
    warning, critical := "", "";
    var remaining := suspects.Keys;
    order := [];
    while remaining != {}
      invariant Visited(suspects, order, remaining)
      invariant warning == Report.WarningText(suspects, order)
      invariant critical == Report.CriticalText(suspects, order)
      decreases remaining
    {
      var cn :| cn in remaining;
      var days := suspects[cn];
      if days >= 0 && days < Report.Window {
        warning := warning + Report.ExpiringText(Report.Notice(cn, days));
      } else if days < 0 && days > -Report.Window {
        critical := critical + Report.ExpiredText(Report.Notice(cn, days));
      }
      Report.TextsStep(suspects, order, cn);
      VisitOne(suspects, order, remaining, cn);
      order := order + [cn];
      remaining := remaining - {cn};
    }
  }

  /** `order` lists, each once, exactly the suspects the loop has taken out
      of `remaining`. */
  predicate Visited(suspects: map<string, int>, order: seq<string>, remaining: set<string>)
  {
    && remaining <= suspects.Keys
    && Report.WithinKeys(order, suspects)
    && (forall i, j :: 0 <= i < j < |order| ==> order[i] != order[j])
    && (forall cn :: cn in suspects ==> (cn in order <==> cn !in remaining))
  }

  /** Taking one more suspect out of `remaining` and appending it to the
      order keeps the two in step. */
  lemma VisitOne(suspects: map<string, int>, order: seq<string>, remaining: set<string>, cn: string)
    requires Visited(suspects, order, remaining) && cn in remaining
    ensures Visited(suspects, order + [cn], remaining - {cn})
  {
  }

  /** A ledger of one valid certificate for `example.com` that expires in
      ten days produces a warning naming it. */
  lemma ExpiringExample(r: Ledger.Record, strptime: Ledger.Strptime, now: int)
    requires forall i :: 0 <= i < 6 ==> Ledger.Tab !in Ledger.Fields(r)[i]
    requires r.status == "V" && r.rawDN == "/C=US/CN=example.com/O=Org/\n"
    requires strptime(r.rawExpire).Some? && Ledger.WholeDays(strptime(r.rawExpire).value, now) == 10
    ensures Ledger.Build([Ledger.Format(r)], strptime, now) == Ok(map["example.com" := 10])
    ensures Report.Summarize(map["example.com" := 10], ["example.com"]) ==
              ("WARNING - (EXPIRES in 10 days) " + "example.com" + " ", 1)
  {
    CommonName.ExampleSubject(r.rawDN, "\n");
    Ledger.AgeFilter(r, 0, strptime, now);
    Ledger.BuildSingle(Ledger.Format(r), strptime, now, Ledger.Suspect("example.com", 10));
    Report.SingleExpiringExample("example.com");
  }

  /** A certificate that expired exactly thirty days ago is kept in the
      suspect map yet named in neither text, so on its own it reads OK. */
  lemma BoundaryGap(r: Ledger.Record, strptime: Ledger.Strptime, now: int)
    requires forall i :: 0 <= i < 6 ==> Ledger.Tab !in Ledger.Fields(r)[i]
    requires r.status != Ledger.RevokedStatus
    requires strptime(r.rawExpire).Some? && Ledger.WholeDays(strptime(r.rawExpire).value, now) == -30
    ensures var cn := CommonName.Extract(r.rawDN);
            && Ledger.Build([Ledger.Format(r)], strptime, now) == Ok(map[cn := -30])
            && Report.Summarize(map[cn := -30], [cn]) == ("OK", 0)
  {
    Ledger.AgeFilter(r, 0, strptime, now);
    var cn := CommonName.Extract(r.rawDN);
    Ledger.BuildSingle(Ledger.Format(r), strptime, now, Ledger.Suspect(cn, -30));
    var m := map[cn := -30];
    Report.SelectedNonEmpty(m, [cn], Report.Critical);
    Report.SelectedNonEmpty(m, [cn], Report.Warning);
  }
}
