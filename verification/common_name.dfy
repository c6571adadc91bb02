/**
 Extraction of a certificate's Common Name from the subject DN field of a
 ledger line: the first match of the regular expression `/CN=([^/]+)/`,
 falling back to the whitespace-stripped DN when there is none.
 Only this one pattern is modelled, as a hand-written scan.
 */
module CommonName {
  import opened Wrappers
  import Text

  const Prefix: string := "/CN="

  /** The pattern occurs at position `i` of `dn` with group `v`: the text
      there reads `/CN=` + v + `/`, where `v` is one or more characters
      other than `/`. */
  ghost predicate Occurs(dn: string, i: int, v: string)
  {
    && 0 <= i
    && i + |v| + 5 <= |dn|
    && dn[i..i + |v| + 5] == Prefix + v + "/"
    && |v| > 0
    && '/' !in v
  }

  /** End of the run of non-`/` characters starting at `k`. */
  function RunEnd(dn: string, k: nat): (e: nat)
    requires k <= |dn|
    ensures k <= e <= |dn|
    ensures forall t :: k <= t < e ==> dn[t] != '/'
    ensures e < |dn| ==> dn[e] == '/'
    decreases |dn| - k
  {
    if k == |dn| || dn[k] == '/' then k else RunEnd(dn, k + 1)
  }

  /** `/CN=` starts at position `i`. */
  predicate PrefixAt(dn: string, i: nat)
  {
    i + 4 <= |dn| && dn[i] == '/' && dn[i + 1] == 'C' && dn[i + 2] == 'N' && dn[i + 3] == '='
  }

  /** The result of trying the pattern at position `i` alone. `[^/]+` is
      greedy and can only stop before a `/`, so the attempt succeeds exactly
      when the maximal run of non-`/` characters after `/CN=` is non-empty
      and is followed by a `/`. */
  function MatchAt(dn: string, i: nat): (m: Option<string>)
    requires i <= |dn|
    ensures m.Some? ==> Occurs(dn, i, m.value)
    ensures forall v :: Occurs(dn, i, v) ==> m == Some(v)
  {
    forall v | Occurs(dn, i, v)
      ensures PrefixAt(dn, i) && i + 4 < RunEnd(dn, i + 4) < |dn|
      ensures dn[i + 4..RunEnd(dn, i + 4)] == v
    {
      OccursRun(dn, i, v);
    }
    if PrefixAt(dn, i) then
      var e := RunEnd(dn, i + 4);
      if i + 4 < e < |dn| then
        RunOccurs(dn, i, e);
        Some(dn[i + 4..e])
      else
        None
    else
      None
  }

  /** Where the pattern occurs, `/CN=` is there and the group is exactly the
      maximal run of non-`/` characters after it. */
  lemma OccursRun(dn: string, i: nat, v: string)
    requires Occurs(dn, i, v)
    ensures PrefixAt(dn, i)
    ensures RunEnd(dn, i + 4) == i + 4 + |v| && dn[i + 4..i + 4 + |v|] == v
  {
    var w := Prefix + v + "/";
    var end := i + 4 + |v|;
    assert dn[i..end + 1] == w;
    assert dn[i] == w[0] && dn[i + 1] == w[1] && dn[i + 2] == w[2] && dn[i + 3] == w[3];
    forall t | i + 4 <= t < end
      ensures dn[t] == v[t - i - 4] && dn[t] != '/'
    {
      assert dn[t] == w[t - i] == v[t - i - 4];
    }
    assert dn[end] == w[|v| + 4] == '/';
    assert dn[i + 4..end] == v;
  }

  /** A non-empty run after `/CN=` that is followed by `/` is an occurrence. */
  lemma RunOccurs(dn: string, i: nat, e: nat)
    requires PrefixAt(dn, i)
    requires e == RunEnd(dn, i + 4) && i + 4 < e < |dn|
    ensures Occurs(dn, i, dn[i + 4..e])
  {
    var v := dn[i + 4..e];
    assert dn[i..i + 4] == Prefix;
    assert dn[i..e + 1] == dn[i..i + 4] + v + [dn[e]];
  }

  /** A successful search: where the match starts and what group 1 holds. */
  datatype Match = Match(start: nat, group: string)

  /** `re.search("/CN=([^/]+)/", dn)` restricted to start positions `>= from`:
      the leftmost position where the pattern occurs. */
  function SearchFrom(dn: string, from: nat): (m: Option<Match>)
    requires from <= |dn|
    ensures m.Some? ==> from <= m.value.start && Occurs(dn, m.value.start, m.value.group)
    ensures m.Some? ==> forall k, v :: from <= k < m.value.start ==> !Occurs(dn, k, v)
    ensures m.None? ==> forall k, v :: from <= k ==> !Occurs(dn, k, v)
    decreases |dn| - from
  {
    match MatchAt(dn, from)
    case Some(v) => Some(Match(from, v))
    case None =>
      if from == |dn| then None else SearchFrom(dn, from + 1)
  }

  /** `re.search("/CN=([^/]+)/", dn)`. */
  function Search(dn: string): (m: Option<Match>)
    ensures m.Some? ==> Occurs(dn, m.value.start, m.value.group)
    ensures m.Some? ==> forall k, v :: 0 <= k < m.value.start ==> !Occurs(dn, k, v)
    ensures m.None? ==> forall k, v :: !Occurs(dn, k, v)
  {
    SearchFrom(dn, 0)
  }

  /** The Common Name the checker files a DN under: group 1 of the first
      match, or, when the search fails, the stripped DN. */
  function Extract(dn: string): (cn: string)
    ensures (exists i, v :: Occurs(dn, i, v)) ==>
              exists i :: Occurs(dn, i, cn) && forall k, v :: 0 <= k < i ==> !Occurs(dn, k, v)
    ensures (forall i, v :: !Occurs(dn, i, v)) ==> cn == Text.Strip(dn)
  {
    match Search(dn)
    case Some(m) => m.group
    case None => Text.Strip(dn)
  }

  /** The group of a match never contains `/` and is never empty. */
  lemma GroupIsSlashFree(dn: string)
    requires Search(dn).Some?
    ensures Extract(dn) == Search(dn).value.group
    ensures |Extract(dn)| > 0 && '/' !in Extract(dn)
  {
  }

  /** When the pattern occurs at `i` and `/CN=` appears nowhere before `i`,
      the Common Name is the group found at `i`. */
  lemma ExtractFirst(dn: string, i: nat, v: string)
    requires Occurs(dn, i, v)
    requires forall k :: 0 <= k < i ==> !PrefixAt(dn, k)
    ensures Extract(dn) == v
  {
    var m := Search(dn).value;
    OccursRun(dn, m.start, m.group);
    OccursRun(dn, i, v);
    assert m.start == i;
    assert m.group == dn[i + 4..i + 4 + |v|];
  }

  /** The Common Name in a DN whose components are separated by slashes
      and which ends with a slash. */
  lemma ExampleSubject(dn: string, rest: string)
    requires dn == "/C=US/CN=example.com/O=Org/" + rest
    ensures Extract(dn) == "example.com"
  {
    var cn := "example.com";
    var head, w, tail := "/C=US", Prefix + cn + "/", "O=Org/" + rest;
    assert dn == head + w + tail;
    assert (head + w + tail)[|head|..|head| + |w|] == w;
    assert dn[1] == 'C' && dn[2] == '=' && dn[3] == 'U' && dn[4] == 'S';
    ExtractFirst(dn, 5, cn);
  }

  /** Without a `/` somewhere after a `/CN=` and its first character there
      is no match, and the stripped DN is used; this is the case of every DN
      whose only `/CN=` is its last component, such as `/C=US/CN=example.com`.
      A DN with an earlier `/CN=` component, such as `/CN=a/O=x/CN=b`, still
      matches at that earlier one. */
  lemma FallsBackWithoutClosingSlash(dn: string)
    requires forall i: nat, t :: PrefixAt(dn, i) && i + 4 < t < |dn| ==> dn[t] != '/'
    ensures Extract(dn) == Text.Strip(dn)
  {
    forall i, v | Occurs(dn, i, v)
      ensures PrefixAt(dn, i) && i + 4 < i + 4 + |v| < |dn| && dn[i + 4 + |v|] == '/'
    {
      OccursRun(dn, i, v);
    }
  }
}
