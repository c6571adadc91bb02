/**
 Reading the certificate authority's `index.txt` ledger into the map of
 suspects: every line is unpacked into six tab-separated fields, revoked
 rows are skipped, rows that expired more than thirty days ago are dropped,
 and every other row files its day count under its Common Name, a later
 row overwriting an earlier one with the same name.

 The wall clock and `datetime.strptime` are parameters. Both give naive
 date-time readings, counted here in microseconds on one common scale:
 `now` is the local wall-clock reading `datetime.now()` takes when the scan
 starts, and a `Strptime` turns the expiry field into the UTC reading it
 spells (the trailing `Z` is matched as a literal letter, not applied as a
 zone), or into None where the real parser raises. The two readings are
 subtracted as they are, so every day count is off by the host's offset
 from UTC, exactly as in the script.
 */
module Ledger {
  import opened Wrappers
  import Text
  import CommonName

  /** One row of the ledger, its six fields in file order. */
  datatype Record = Record(
    status: string,
    rawExpire: string,
    rawRevoke: string,
    rawSerial: string,
    unknown: string,
    rawDN: string)

  const Tab: char := '\t'

  /** Status of a revoked certificate. */
  const RevokedStatus: string := "R"

  /** Certificates that expired more than this many days ago are ignored. */
  const MaxAgeDays: int := 30

  const MicrosPerDay: int := 86_400_000_000

  /** The timestamp parser: the naive UTC reading an expiry field spells,
      or None when it is not of the form `%y%m%d%H%M%SZ`. */
  type Strptime = string -> Option<int>

  /** Why a scan stops: the exception the checker does not catch. */
  datatype ParseError =
    | FieldCount(index: nat, count: nat)     // unpacking `line.split("\t")` into six names fails
    | BadExpiry(index: nat, rawExpire: string) // `strptime` rejects the expiry field

  function Fields(r: Record): seq<string>
  {
    [r.status, r.rawExpire, r.rawRevoke, r.rawSerial, r.unknown, r.rawDN]
  }

  /** The ledger line a record is written as. */
  function Format(r: Record): string
  {
    Text.Join(Fields(r), Tab)
  }

  /** Unpacking `line.split("\t")` into six fields; None where the
      unpacking raises. */
  function ParseRecord(line: string): (r: Option<Record>)
    ensures r.Some? <==> Text.Occurrences(line, Tab) == 5
    ensures r.Some? ==> Format(r.value) == line
    ensures r.Some? ==> forall i :: 0 <= i < 6 ==> Tab !in Fields(r.value)[i]
  {
    var f := Text.Split(line, Tab);
    if |f| == 6 then
      var rec := Record(f[0], f[1], f[2], f[3], f[4], f[5]);
      assert Fields(rec) == f;
      Text.JoinSplit(line, Tab);
      Some(rec)
    else
      None
  }

  /** A record whose fields hold no tab survives writing and re-reading. */
  lemma ParseFormat(r: Record)
    requires forall i :: 0 <= i < 6 ==> Tab !in Fields(r)[i]
    ensures ParseRecord(Format(r)) == Some(r)
  {
    Text.SplitJoin(Fields(r), Tab);
  }

  /** `(expire - now).days`: a timedelta keeps its day count as the floor
      of the difference, its seconds part being never negative. */
  function WholeDays(expire: int, now: int): (d: int)
    ensures d * MicrosPerDay <= expire - now < (d + 1) * MicrosPerDay
  {
    (expire - now) / MicrosPerDay
  }

  /** The age filter drops a certificate exactly when it expired more than
      thirty whole days before the scan started. */
  lemma TooOldExactly(expire: int, now: int)
    ensures WholeDays(expire, now) < -MaxAgeDays <==> expire - now < -MaxAgeDays * MicrosPerDay
  {
    var d := WholeDays(expire, now);
    if d < -MaxAgeDays {
      assert (d + 1) * MicrosPerDay <= -MaxAgeDays * MicrosPerDay;
    } else {
      assert -MaxAgeDays * MicrosPerDay <= d * MicrosPerDay;
    }
  }

  /** What one line does to the suspect map. */
  datatype Contribution = Skip | Suspect(cn: string, days: int)

  /** The body of the scan loop for the line at `index`. */
  function Contribute(line: string, index: nat, strptime: Strptime, now: int): (c: Result<Contribution, ParseError>)
    ensures c.Err? && c.error.FieldCount? <==> Text.Occurrences(line, Tab) != 5
    ensures c.Err? ==> c.error.index == index
    ensures c.Err? && c.error.BadExpiry? ==> strptime(c.error.rawExpire).None?
    ensures c.Ok? && c.value.Suspect? ==> c.value.days >= -MaxAgeDays
  {
    match ParseRecord(line)
    case None => Err(FieldCount(index, |Text.Split(line, Tab)|))
    case Some(rec) =>
      if rec.status == RevokedStatus then Ok(Skip)
      else
        match strptime(rec.rawExpire)
        case None => Err(BadExpiry(index, rec.rawExpire))
        case Some(expire) =>
          var days := WholeDays(expire, now);
          if days < -MaxAgeDays then Ok(Skip)
          else Ok(Suspect(CommonName.Extract(rec.rawDN), days))
  }

  /** A revoked row contributes nothing, whatever its expiry and subject,
      even when its expiry field does not parse. */
  lemma RevokedIsSkipped(r: Record, index: nat, strptime: Strptime, now: int)
    requires forall i :: 0 <= i < 6 ==> Tab !in Fields(r)[i]
    requires r.status == RevokedStatus
    ensures Contribute(Format(r), index, strptime, now) == Ok(Skip)
  {
    ParseFormat(r);
  }

  /** A well-formed, non-revoked row whose expiry field `strptime` rejects
      stops the scan with that field, whatever its subject. */
  lemma BadExpiryAborts(r: Record, index: nat, strptime: Strptime, now: int)
    requires forall i :: 0 <= i < 6 ==> Tab !in Fields(r)[i]
    requires r.status != RevokedStatus && strptime(r.rawExpire).None?
    ensures Contribute(Format(r), index, strptime, now) == Err(BadExpiry(index, r.rawExpire))
  {
    ParseFormat(r);
  }

  /** A well-formed, non-revoked row with a parseable expiry is filed under
      its Common Name exactly when it is at most thirty days past expiry. */
  lemma AgeFilter(r: Record, index: nat, strptime: Strptime, now: int)
    requires forall i :: 0 <= i < 6 ==> Tab !in Fields(r)[i]
    requires r.status != RevokedStatus && strptime(r.rawExpire).Some?
    ensures var days := WholeDays(strptime(r.rawExpire).value, now);
            Contribute(Format(r), index, strptime, now) ==
              if days < -MaxAgeDays then Ok(Skip)
              else Ok(Suspect(CommonName.Extract(r.rawDN), days))
  {
    ParseFormat(r);
  }

  /** A row exactly thirty days past expiry is kept; one a day older is not. */
  lemma AgeBoundary(r: Record, index: nat, strptime: Strptime, now: int)
    requires forall i :: 0 <= i < 6 ==> Tab !in Fields(r)[i]
    requires r.status != RevokedStatus && strptime(r.rawExpire).Some?
    ensures WholeDays(strptime(r.rawExpire).value, now) == -30 ==>
              Contribute(Format(r), index, strptime, now) == Ok(Suspect(CommonName.Extract(r.rawDN), -30))
    ensures WholeDays(strptime(r.rawExpire).value, now) == -31 ==>
              Contribute(Format(r), index, strptime, now) == Ok(Skip)
  {
    AgeFilter(r, index, strptime, now);
  }

  /** `suspects[cn] = days` for a suspect; nothing for a skipped row. */
  function Insert(suspects: map<string, int>, c: Contribution): (r: map<string, int>)
    ensures r.Keys == suspects.Keys + (if c.Suspect? then {c.cn} else {})
    ensures c.Suspect? ==> r[c.cn] == c.days
    ensures forall k :: k in suspects && !(c.Suspect? && k == c.cn) ==> r[k] == suspects[k]
  {
    match c
    case Skip => suspects
    case Suspect(cn, days) => suspects[cn := days]
  }

  /** The suspect map after applying the contributions in order. */
  function Fold(cs: seq<Contribution>): map<string, int>
  {
    if |cs| == 0 then map[] else Insert(Fold(cs[..|cs| - 1]), cs[|cs| - 1])
  }

  /** Entry `i` files `cn`. */
  predicate FilesAt(cs: seq<Contribution>, i: int, cn: string)
  {
    0 <= i < |cs| && cs[i].Suspect? && cs[i].cn == cn
  }

  /** A name is in the fold exactly when some contribution files it. */
  lemma {:induction false} FoldKeys(cs: seq<Contribution>, cn: string)
    ensures cn in Fold(cs) <==> exists i :: FilesAt(cs, i, cn)
  {
    if |cs| > 0 {
      var n := |cs| - 1;
      FoldKeys(cs[..n], cn);
      assert Fold(cs) == Insert(Fold(cs[..n]), cs[n]);
      if FilesAt(cs, n, cn) {
        assert cn in Fold(cs);
      } else {
        assert cn in Fold(cs) <==> cn in Fold(cs[..n]);
        if exists i :: FilesAt(cs[..n], i, cn) {
          var i :| FilesAt(cs[..n], i, cn);
          assert FilesAt(cs, i, cn);
        }
        if exists i :: FilesAt(cs, i, cn) {
          var i :| FilesAt(cs, i, cn);
          assert FilesAt(cs[..n], i, cn);
        }
      }
    }
  }

  /** The value the fold holds for a name is the day count of the last
      contribution filing that name. */
  lemma {:induction false} FoldLastWins(cs: seq<Contribution>, cn: string)
    requires cn in Fold(cs)
    ensures exists i :: FilesAt(cs, i, cn) && cs[i].days == Fold(cs)[cn] &&
              forall j :: i < j < |cs| ==> !FilesAt(cs, j, cn)
  {
    var n := |cs| - 1;
    if FilesAt(cs, n, cn) {
      assert Fold(cs)[cn] == cs[n].days;
    } else {
      FoldLastWins(cs[..n], cn);
      var i :| FilesAt(cs[..n], i, cn) && cs[..n][i].days == Fold(cs[..n])[cn] &&
               forall j :: i < j < n ==> !FilesAt(cs[..n], j, cn);
      assert FilesAt(cs, i, cn);
      forall j | i < j < |cs|
        ensures !FilesAt(cs, j, cn)
      {
        if j < n {
          assert !FilesAt(cs[..n], j, cn);
        }
      }
    }
  }

  /** Every line's contribution, or the error of the first line that raises. */
  function Scan(lines: seq<string>, strptime: Strptime, now: int): (r: Result<seq<Contribution>, ParseError>)
    ensures r.Ok? ==> |r.value| == |lines|
    ensures r.Ok? ==> forall i :: 0 <= i < |lines| ==> Contribute(lines[i], i, strptime, now) == Ok(r.value[i])
    ensures r.Err? ==>
              && r.error.index < |lines|
              && Contribute(lines[r.error.index], r.error.index, strptime, now) == Err(r.error)
              && forall i :: 0 <= i < r.error.index ==> Contribute(lines[i], i, strptime, now).Ok?
    decreases |lines|
  {
    if |lines| == 0 then Ok([])
    else
      var n := |lines| - 1;
      var init := lines[..n];
      assert forall i :: 0 <= i < n ==> init[i] == lines[i];
      match Scan(init, strptime, now)
      case Err(e) => Err(e)
      case Ok(cs) =>
        match Contribute(lines[n], n, strptime, now)
        case Err(e) => Err(e)
        case Ok(c) => Ok(cs + [c])
  }

  /** The scan loop: `suspects[cn] = diff.days` for every contributing line,
      in file order; the first line that raises ends the scan. */
  function Build(lines: seq<string>, strptime: Strptime, now: int): (r: Result<map<string, int>, ParseError>)
    ensures r.Ok? <==> forall i :: 0 <= i < |lines| ==> Contribute(lines[i], i, strptime, now).Ok?
    ensures r.Ok? ==> forall cn :: cn in r.value ==> r.value[cn] >= -MaxAgeDays
  {
    match Scan(lines, strptime, now)
    case Err(e) => Err(e)
    case Ok(cs) =>
      FoldAges(cs);
      Ok(Fold(cs))
  }

  /** A failed build reports the error of the first line that raises: that
      line's own error, every earlier line having gone through. */
  lemma BuildStopsAtFirstError(lines: seq<string>, strptime: Strptime, now: int)
    requires Build(lines, strptime, now).Err?
    ensures var e := Build(lines, strptime, now).error;
            && e.index < |lines|
            && Contribute(lines[e.index], e.index, strptime, now) == Err(e)
            && forall i :: 0 <= i < e.index ==> Contribute(lines[i], i, strptime, now).Ok?
  {
  }

  lemma {:induction false} FoldAges(cs: seq<Contribution>)
    requires forall i :: 0 <= i < |cs| ==> cs[i].Suspect? ==> cs[i].days >= -MaxAgeDays
    ensures forall cn :: cn in Fold(cs) ==> Fold(cs)[cn] >= -MaxAgeDays
  {
    if |cs| > 0 {
      FoldAges(cs[..|cs| - 1]);
    }
  }

  /** A one-line ledger yields what its line contributes. */
  lemma BuildSingle(line: string, strptime: Strptime, now: int, c: Contribution)
    requires Contribute(line, 0, strptime, now) == Ok(c)
    ensures Build([line], strptime, now) == Ok(Insert(map[], c))
  {
    var lines := [line];
    assert lines[..0] == [];
    assert Scan([], strptime, now) == Ok([]);
    assert lines[0] == line;
    assert Scan(lines, strptime, now) == Ok([] + [c]);
    var cs := [c];
    assert cs[..0] == [];
    assert Fold(cs) == Insert(Fold([]), c);
    assert [] + [c] == cs;
  }

  /** After a successful scan a name is a suspect exactly when some line
      filed it. */
  lemma BuildKeys(lines: seq<string>, strptime: Strptime, now: int, cn: string)
    requires Build(lines, strptime, now).Ok?
    ensures Scan(lines, strptime, now).Ok?
    ensures cn in Build(lines, strptime, now).value <==> exists i :: FilesAt(Scan(lines, strptime, now).value, i, cn)
  {
    FoldKeys(Scan(lines, strptime, now).value, cn);
  }

  /** Last write wins: the day count a suspect ends up with is the one filed
      by the last line that filed its name. */
  lemma BuildLastWins(lines: seq<string>, strptime: Strptime, now: int, cn: string)
    requires Build(lines, strptime, now).Ok?
    requires cn in Build(lines, strptime, now).value
    ensures Scan(lines, strptime, now).Ok?
    ensures var cs := Scan(lines, strptime, now).value;
            exists i :: FilesAt(cs, i, cn) && cs[i].days == Build(lines, strptime, now).value[cn] &&
              forall j :: i < j < |cs| ==> !FilesAt(cs, j, cn)
  {
    FoldLastWins(Scan(lines, strptime, now).value, cn);
  }
}
