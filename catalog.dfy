/** The local excuse catalog and its selector (`excuseDatabase`, `getRandomExcuse`,
    `getAvailableSituations`). */
module ExcuseCatalog {
  import opened Wrappers
  import opened Seqs

  /** One record of a situation's JSON file. */
  datatype ExcuseRecord = ExcuseRecord(excuse: string, tone: string, length: string, believabilityRating: int)

  /** The excuse database: a plain object from situation name to its records. `situations` is the
      object's own key order (what `Object.keys` lists); `excuses` is the lookup. */
  datatype Catalog = Catalog(situations: seq<string>, excuses: map<string, seq<ExcuseRecord>>)

  /** What a plain object guarantees: every key listed once, and the list is exactly the key set. */
  ghost predicate Wf(c: Catalog) {
    && (forall i, j :: 0 <= i < j < |c.situations| ==> c.situations[i] != c.situations[j])
    && (forall i :: 0 <= i < |c.situations| ==> c.situations[i] in c.excuses)
    && (forall s :: s in c.excuses ==> s in c.situations)
  }

  /** What `getRandomExcuse` hands back: the record's text and rating only. */
  datatype Excuse = Excuse(excuse: string, believabilityRating: int)

  /** The three situations the database is assembled from, with each JSON file's records as given. */
  function ExcuseDatabase(lateToWork: seq<ExcuseRecord>, missedDeadline: seq<ExcuseRecord>,
                          forgotBirthday: seq<ExcuseRecord>): (c: Catalog)
    ensures Wf(c)
    ensures c.situations == ["Late to work", "Missed deadline", "Forgot birthday"]
    ensures c.excuses.Keys == {"Late to work", "Missed deadline", "Forgot birthday"}
    ensures c.excuses["Late to work"] == lateToWork
    ensures c.excuses["Missed deadline"] == missedDeadline
    ensures c.excuses["Forgot birthday"] == forgotBirthday
  {
    assert "Late to work"[0] != "Missed deadline"[0] && "Missed deadline"[0] != "Forgot birthday"[0];
    assert "Late to work"[0] != "Forgot birthday"[0];
    Catalog(["Late to work", "Missed deadline", "Forgot birthday"],
            map["Late to work" := lateToWork, "Missed deadline" := missedDeadline,
                "Forgot birthday" := forgotBirthday])
  }

  /** `getAvailableSituations`: every situation of the catalog, each once. */
  function GetAvailableSituations(c: Catalog): (r: seq<string>)
    requires Wf(c)
    ensures forall s :: s in r <==> s in c.excuses
    ensures forall i, j :: 0 <= i < j < |r| ==> r[i] != r[j]
  {
    c.situations
  }

  /** JavaScript truthiness of an optional string argument: present and not empty. */
  predicate Given(arg: Option<string>) {
    arg.Some? && arg.value != ""
  }

  /** A record passes the filters that were given (an absent or empty filter passes everything). */
  predicate Matches(e: ExcuseRecord, tone: Option<string>, length: Option<string>) {
    && (Given(tone) ==> e.tone == tone.value)
    && (Given(length) ==> e.length == length.value)
  }

  /** The three filter predicates, as the arguments `filter` is called with. */
  function HasTone(t: string): ExcuseRecord -> bool {
    (e: ExcuseRecord) => e.tone == t
  }

  function HasLength(l: string): ExcuseRecord -> bool {
    (e: ExcuseRecord) => e.length == l
  }

  function MatchesFilters(tone: Option<string>, length: Option<string>): ExcuseRecord -> bool {
    (e: ExcuseRecord) => Matches(e, tone, length)
  }

  /** `Math.floor(r * n)` for a draw `0 <= r < 1` of `Math.random()`, taken as an exact real. */
  function RandomIndex(r: real, n: nat): (i: nat)
    requires 0.0 <= r < 1.0 && n > 0
    ensures i < n
  {
    var x := r * n as real;
    assert 0.0 <= x < n as real;
    x.Floor
  }

  /** Every index can be drawn: the draw `i / n` picks index `i`. */
  lemma RandomIndexReachesAll(i: nat, n: nat)
    requires i < n
    ensures 0.0 <= i as real / n as real < 1.0
    ensures RandomIndex(i as real / n as real, n) == i
  {
    var r := i as real / n as real;
    assert r * n as real == i as real;
  }

  /** The staged filters: by tone if a tone is given, then by length if a length is given. What is
      left is exactly the records of `all` that match every given argument. */
  function Filtered(all: seq<ExcuseRecord>, tone: Option<string>, length: Option<string>): (r: seq<ExcuseRecord>)
    ensures |r| <= |all|
    ensures forall i :: 0 <= i < |r| ==> r[i] in all && Matches(r[i], tone, length)
    ensures forall i :: 0 <= i < |all| && Matches(all[i], tone, length) ==> all[i] in r
  {
    var byTone := if Given(tone) then Filter(all, HasTone(tone.value)) else all;
    if Given(length) then Filter(byTone, HasLength(length.value)) else byTone
  }

  /** The candidate list: the filtered records, or the whole unfiltered list if none is left. */
  function Candidates(all: seq<ExcuseRecord>, tone: Option<string>, length: Option<string>): (r: seq<ExcuseRecord>)
    ensures |all| > 0 ==> |r| > 0
    ensures forall i :: 0 <= i < |r| ==> r[i] in all
  {
    var filtered := Filtered(all, tone, length);
    if |filtered| == 0 then all else filtered
  }

  /** The record `getRandomExcuse` draws with `r`: none when the situation is missing or has no
      records, otherwise the candidate at index `floor(r * |candidates|)`. */
  function SelectRecord(c: Catalog, situation: string, tone: Option<string>, length: Option<string>, r: real)
    : (sel: Option<ExcuseRecord>)
    requires 0.0 <= r < 1.0
    ensures sel.None? <==> situation !in c.excuses || |c.excuses[situation]| == 0
    ensures sel.Some? ==> sel.value in c.excuses[situation]
  {
    if situation !in c.excuses || |c.excuses[situation]| == 0 then None
    else
      var cs := Candidates(c.excuses[situation], tone, length);
      Some(cs[RandomIndex(r, |cs|)])
  }

  /** `getRandomExcuse`: null exactly when the situation has no records; otherwise the text and
      rating of one of that situation's records, unchanged. */
  function GetRandomExcuse(c: Catalog, situation: string, tone: Option<string>, length: Option<string>, r: real)
    : (res: Option<Excuse>)
    requires 0.0 <= r < 1.0
    ensures res.None? <==> situation !in c.excuses || |c.excuses[situation]| == 0
    ensures res.Some? ==> exists e :: e in c.excuses[situation] &&
                                      res.value == Excuse(e.excuse, e.believabilityRating)
    ensures res.Some? ==> var e := SelectRecord(c, situation, tone, length, r).value;
                          res.value.excuse == e.excuse && res.value.believabilityRating == e.believabilityRating
  {
    match SelectRecord(c, situation, tone, length, r)
    case None => None
    case Some(e) => Some(Excuse(e.excuse, e.believabilityRating))
  }

  /** The two staged filters are one filter by `Matches`. */
  lemma {:induction false} FilteredIsOneFilter(all: seq<ExcuseRecord>, tone: Option<string>, length: Option<string>)
    ensures Filtered(all, tone, length) == Filter(all, MatchesFilters(tone, length))
  {
    var m := MatchesFilters(tone, length);
    if Given(tone) && Given(length) {
      FilterTwice(all, HasTone(tone.value), HasLength(length.value), m);
    } else if Given(tone) {
      FilterExtensional(all, HasTone(tone.value), m);
    } else if Given(length) {
      FilterExtensional(all, HasLength(length.value), m);
    } else {
      FilterKeepsAll(all, m);
    }
  }

  /** The fallback applies exactly when no record matches: the candidates are the matching
      records if there are any, and the whole list otherwise. */
  lemma CandidatesCharacterized(all: seq<ExcuseRecord>, tone: Option<string>, length: Option<string>)
    ensures (exists i :: 0 <= i < |all| && Matches(all[i], tone, length)) ==>
              Candidates(all, tone, length) == Filter(all, MatchesFilters(tone, length))
    ensures (forall i :: 0 <= i < |all| ==> !Matches(all[i], tone, length)) ==>
              Candidates(all, tone, length) == all
  {
    FilteredIsOneFilter(all, tone, length);
    var filtered := Filter(all, MatchesFilters(tone, length));
    if exists i :: 0 <= i < |all| && Matches(all[i], tone, length) {
      var i :| 0 <= i < |all| && Matches(all[i], tone, length);
      assert MatchesFilters(tone, length)(all[i]);
      assert all[i] in filtered;
    } else {
      FilterKeepsNone(all, MatchesFilters(tone, length));
    }
  }

  /** If some record of the situation has exactly the requested tone and length, the selected
      record has that tone and that length. */
  lemma ExactMatchSelected(c: Catalog, situation: string, tone: string, length: string, r: real)
    requires 0.0 <= r < 1.0
    requires tone != "" && length != ""
    requires situation in c.excuses
    requires exists e :: e in c.excuses[situation] && e.tone == tone && e.length == length
    ensures SelectRecord(c, situation, Some(tone), Some(length), r).Some?
    ensures SelectRecord(c, situation, Some(tone), Some(length), r).value.tone == tone
    ensures SelectRecord(c, situation, Some(tone), Some(length), r).value.length == length
  {
    var all := c.excuses[situation];
    var e :| e in all && e.tone == tone && e.length == length;
    var i :| 0 <= i < |all| && all[i] == e;
    assert Matches(all[i], Some(tone), Some(length));
    CandidatesCharacterized(all, Some(tone), Some(length));
    var keep := MatchesFilters(Some(tone), Some(length));
    var cs := Candidates(all, Some(tone), Some(length));
    assert cs == Filter(all, keep);
    var k := RandomIndex(r, |cs|);
    assert SelectRecord(c, situation, Some(tone), Some(length), r) == Some(cs[k]);
    assert keep(cs[k]);
  }

  /** The fallback drops both filters: if no record has the requested tone and length together,
      the candidates are the situation's whole list (not the records of that tone alone). */
  lemma FallbackUsesWholeList(all: seq<ExcuseRecord>, tone: string, length: string)
    requires tone != "" && length != ""
    requires forall e :: e in all ==> !(e.tone == tone && e.length == length)
    ensures Candidates(all, Some(tone), Some(length)) == all
  {
    CandidatesCharacterized(all, Some(tone), Some(length));
  }

  /** An absent or empty tone and length filter nothing. */
  lemma NoFilterWithoutArguments(all: seq<ExcuseRecord>, tone: Option<string>, length: Option<string>)
    requires tone == None || tone == Some("")
    requires length == None || length == Some("")
    ensures Candidates(all, tone, length) == all
  {
  }

  /** The selection is the candidate at index `floor(r * n)`, and every candidate can be selected. */
  lemma SelectionIsCandidateAt(c: Catalog, situation: string, tone: Option<string>, length: Option<string>, k: nat)
    requires situation in c.excuses && |c.excuses[situation]| > 0
    requires k < |Candidates(c.excuses[situation], tone, length)|
    ensures var n := |Candidates(c.excuses[situation], tone, length)|;
            var r := k as real / n as real;
            0.0 <= r < 1.0 &&
            SelectRecord(c, situation, tone, length, r) == Some(Candidates(c.excuses[situation], tone, length)[k])
  {
    RandomIndexReachesAll(k, |Candidates(c.excuses[situation], tone, length)|);
  }
}
