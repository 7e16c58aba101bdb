/** How `zip::load` walks the local records (zip.cc:944-1048): what holds after each one.
    `rec(i)` is the local record of entry `i` and `lim(i)` where it has to end. */
module ZipLoad {
  import opened Wrappers
  import opened Endian
  import opened ZipFormat

  type Records = nat -> Record
  type Limits = nat -> nat

  function RecordsOf(f: seq<Byte>, es: seq<Entry>, start: nat, pedantic: bool): Records {
    (i: nat) => if i < |es| then RecordOf(f, es, i, start, pedantic) else Invalid
  }

  function LimitsOf(es: seq<Entry>, start: nat): Limits {
    (i: nat) => if i < |es| then Limit(es, es[i], start) else start
  }

  predicate Asked(i: nat) { true }

  /** `rec` and `lim` are those of the file, as far as one asks for them. */
  ghost predicate Walks(f: seq<Byte>, es: seq<Entry>, start: nat, pedantic: bool, rec: Records, lim: Limits) {
    forall i: nat {:trigger Asked(i)} :: Asked(i) ==>
      rec(i) == RecordsOf(f, es, start, pedantic)(i) && lim(i) == LimitsOf(es, start)(i)
  }

  /** What is known of the records and their limits while all entries are below `start`. */
  ghost predicate Fits(rec: Records, lim: Limits, es: seq<Entry>, start: nat) {
    && (forall i: nat {:trigger rec(i)} :: rec(i).Record? ==> rec(i).end <= lim(i))
    && (forall i {:trigger lim(i)} | 0 <= i < |es| :: es[i].offset < lim(i) <= start)
    && (forall i, j {:trigger lim(i), es[j]} | 0 <= i < |es| && 0 <= j < |es| && es[i].offset < es[j].offset :: lim(i) <= es[j].offset)
    && (forall i {:trigger lim(i)} | 0 <= i < |es| :: lim(i) == start || exists j :: 0 <= j < |es| && es[j].offset == lim(i))
  }

  lemma FitsOf(f: seq<Byte>, es: seq<Entry>, start: nat, pedantic: bool)
    requires Below(es, start)
    ensures Fits(RecordsOf(f, es, start, pedantic), LimitsOf(es, start), es, start)
  {
    forall i | 0 <= i < |es|
      ensures es[i].offset < Limit(es, es[i], start) <= start
      ensures forall j | 0 <= j < |es| :: es[i].offset < es[j].offset ==> Limit(es, es[i], start) <= es[j].offset
      ensures Limit(es, es[i], start) == start || exists j :: 0 <= j < |es| && es[j].offset == Limit(es, es[i], start)
    {
      LimitAbove(es, i, start);
    }
  }

  ghost predicate Unbroken(rec: Records, lim: Limits, es: seq<Entry>, start: nat) {
    && (if es == [] then start == 0 else exists i :: 0 <= i < |es| && es[i].offset == 0)
    && (forall i {:trigger rec(i)} | 0 <= i < |es| :: rec(i).Record? && rec(i).end == lim(i))
  }

  /** `Loadable`, over the records. */
  ghost predicate Complete(rec: Records, lim: Limits, es: seq<Entry>, start: nat, pedantic: bool) {
    && Distinct(es) && Below(es, start)
    && (forall i {:trigger rec(i)} | 0 <= i < |es| :: rec(i).Record?)
    && (pedantic ==> Unbroken(rec, lim, es, start))
  }

  /** The local records can be loaded: each starts below the directory, no two at the same
      place, each is valid and ends before the next; and without holes if `pedantic`. */
  ghost predicate Loadable(f: seq<Byte>, es: seq<Entry>, start: nat, pedantic: bool) {
    Complete(RecordsOf(f, es, start, pedantic), LimitsOf(es, start), es, start, pedantic)
  }

  /** In a file that loads, the local records take pairwise disjoint ranges, all below the
      directory. */
  lemma LoadedDisjoint(f: seq<Byte>, es: seq<Entry>, start: nat, pedantic: bool)
    requires Loadable(f, es, start, pedantic)
    ensures var rec := RecordsOf(f, es, start, pedantic);
            && (forall i | 0 <= i < |es| :: rec(i).Record? && es[i].offset < rec(i).end <= start)
            && (forall i, j | 0 <= i < |es| && 0 <= j < |es| && i != j :: rec(i).end <= es[j].offset || rec(j).end <= es[i].offset)
  {
    var rec, lim := RecordsOf(f, es, start, pedantic), LimitsOf(es, start);
    FitsOf(f, es, start, pedantic);
    forall i | 0 <= i < |es|
      ensures rec(i).Record? && es[i].offset < rec(i).end <= start
    {
      assert rec(i).end <= lim(i);
    }
    DisjointOf(rec, lim, es, start, pedantic);
  }

  lemma DisjointOf(rec: Records, lim: Limits, es: seq<Entry>, start: nat, pedantic: bool)
    requires Fits(rec, lim, es, start) && Complete(rec, lim, es, start, pedantic)
    ensures forall i, j | 0 <= i < |es| && 0 <= j < |es| && i != j :: rec(i).end <= es[j].offset || rec(j).end <= es[i].offset
  {
    forall i, j | 0 <= i < |es| && 0 <= j < |es| && i != j
      ensures rec(i).end <= es[j].offset || rec(j).end <= es[i].offset
    {
      DistinctAt(es, i, j);
      assert rec(i).end <= lim(i) && rec(j).end <= lim(j);
    }
  }

  /** Where `load` stands: the entries `loaded`, all of them below `pos`. */
  ghost predicate Progress(rec: Records, lim: Limits, es: seq<Entry>, now: seq<Entry>, start: nat, pedantic: bool,
                           loaded: set<nat>, pos: nat)
  {
    && |now| == |es|
    && (forall i | 0 <= i < |es| :: now[i] == es[i].(data := now[i].data))
    && (forall i | i in loaded :: i < |es| && es[i].offset < pos && es[i].offset < start)
    && (forall i, j | i in loaded && j in loaded && i != j :: es[i].offset != es[j].offset)
    && (Below(es, start) ==> forall i | i in loaded ::
          rec(i).Record? && rec(i).end <= pos && now[i].data == Some(rec(i).data))
    && (Below(es, start) && Distinct(es) ==> forall i | 0 <= i < |es| && es[i].offset < pos :: i in loaded)
    && (pedantic && Below(es, start) ==> Filled(rec, lim, es, loaded, pos))
  }

  /** So far there was no hole: the last record ends at `pos`. */
  ghost predicate Filled(rec: Records, lim: Limits, es: seq<Entry>, loaded: set<nat>, pos: nat) {
    if loaded == {} then pos == 0
    else
      && (exists i :: i in loaded && i < |es| && es[i].offset == 0)
      && (exists i :: i in loaded && i < |es| && rec(i).Record? && rec(i).end == pos)
      && (forall i | i in loaded :: rec(i).Record? && (rec(i).end == pos || rec(i).end == lim(i)))
  }

  /** A record does not depend on the data that its entry has already. */
  lemma RecordSame(f: seq<Byte>, d: Entry, e: Entry, limit: nat, pedantic: bool)
    requires d == e.(data := d.data)
    ensures LocalRecord(f, d, limit, pedantic) == LocalRecord(f, e, limit, pedantic)
  {
  }

  /** A hole, or an end that is not the start of the directory. */
  lemma HoleFails(rec: Records, lim: Limits, es: seq<Entry>, now: seq<Entry>, start: nat, loaded: set<nat>, pos: nat)
    requires Progress(rec, lim, es, now, start, true, loaded, pos)
    requires pos != start && forall j | 0 <= j < |es| :: pos < start ==> es[j].offset != pos
    requires Below(es, start) ==> Fits(rec, lim, es, start)
    ensures !Complete(rec, lim, es, start, true)
  {
  }

  lemma DistinctAt(es: seq<Entry>, i: nat, j: nat)
    requires Distinct(es) && i < |es| && j < |es| && i != j
    ensures es[i].offset != es[j].offset
  {
    if i > j {
      DistinctAt(es, j, i);
    }
  }

  /** The entry that starts next: the least offset from `pos` on. */
  ghost predicate IsNext(es: seq<Entry>, pos: nat, next: nat) {
    next < |es| && pos <= es[next].offset && forall i | 0 <= i < |es| :: pos <= es[i].offset ==> es[next].offset <= es[i].offset
  }

  /** Everything below the end of the next record is loaded with it. */
  lemma CoversNext(rec: Records, lim: Limits, es: seq<Entry>, start: nat, loaded: set<nat>, pos: nat, next: nat, end: nat)
    requires IsNext(es, pos, next) && Fits(rec, lim, es, start) && Distinct(es) && end <= lim(next)
    requires forall i | 0 <= i < |es| && es[i].offset < pos :: i in loaded
    ensures forall i | 0 <= i < |es| && es[i].offset < end :: i in loaded + {next}
  {
    forall i | 0 <= i < |es| && es[i].offset < end && i != next
      ensures i in loaded
    {
      DistinctAt(es, i, next);
    }
  }

  /** Without holes up to the next record there are none up to its end. */
  lemma FilledStep(rec: Records, lim: Limits, es: seq<Entry>, start: nat, loaded: set<nat>, pos: nat, next: nat)
    requires next < |es| && es[next].offset == pos && Fits(rec, lim, es, start) && rec(next).Record?
    requires forall i | i in loaded :: i < |es| && es[i].offset < pos
    requires Filled(rec, lim, es, loaded, pos)
    ensures Filled(rec, lim, es, loaded + {next}, rec(next).end)
  {
    forall i | i in loaded
      ensures rec(i).Record? && rec(i).end == lim(i)
    {
    }
    var all := loaded + {next};
    assert next in all;
    if loaded != {} {
      var i :| i in loaded && i < |es| && es[i].offset == 0;
      assert i in all;
    }
  }

  /** One record more. */
  lemma LoadStep(rec: Records, lim: Limits, es: seq<Entry>, before: seq<Entry>, now: seq<Entry>, start: nat, pedantic: bool,
                 loaded: set<nat>, pos: nat, next: nat, end: nat)
    requires Progress(rec, lim, es, before, start, pedantic, loaded, pos)
    requires IsNext(es, pos, next) && es[next].offset < start && (pedantic ==> es[next].offset == pos)
    requires |now| == |es| && (forall k | 0 <= k < |es| && k != next :: now[k] == before[k])
    requires now[next] == es[next].(data := now[next].data) && end > es[next].offset
    requires Below(es, start) ==> Fits(rec, lim, es, start) && rec(next).Record? && end == rec(next).end &&
                                  now[next].data == Some(rec(next).data)
    ensures next !in loaded && Progress(rec, lim, es, now, start, pedantic, loaded + {next}, end)
  {
    if Below(es, start) {
      if Distinct(es) {
        CoversNext(rec, lim, es, start, loaded, pos, next, end);
      }
      if pedantic {
        FilledStep(rec, lim, es, start, loaded, pos, next);
      }
    }
  }

  lemma {:induction false} AllIndices(s: set<nat>, n: nat)
    requires forall i | i in s :: i < n
    ensures |s| <= n && (|s| == n ==> forall i | 0 <= i < n :: i in s)
    ensures (forall i | 0 <= i < n :: i in s) ==> |s| == n
  {
    if n > 0 {
      var rest := s - {n - 1};
      AllIndices(rest, n - 1);
      if n - 1 in s {
        assert s == rest + {n - 1};
      } else {
        assert s == rest;
      }
      if |s| == n || forall i | 0 <= i < n :: i in s {
        assert n - 1 in s;
        assert forall i | 0 <= i < n - 1 :: i in rest <==> i in s;
      }
    }
  }

  /** At the end, every entry is loaded exactly when the directory could be loaded. */
  lemma Finished(rec: Records, lim: Limits, es: seq<Entry>, now: seq<Entry>, start: nat, pedantic: bool, loaded: set<nat>, pos: nat)
    requires Progress(rec, lim, es, now, start, pedantic, loaded, pos)
    requires pos >= start || forall i | 0 <= i < |es| :: es[i].offset < pos
    requires pedantic ==> pos == start
    requires Below(es, start) ==> Fits(rec, lim, es, start)
    ensures |loaded| == |es| <==> Complete(rec, lim, es, start, pedantic)
    ensures |loaded| == |es| ==> forall i | 0 <= i < |es| :: rec(i).Record? && now[i] == es[i].(data := Some(rec(i).data))
  {
    AllIndices(loaded, |es|);
    if |loaded| == |es| {
      assert forall i | 0 <= i < |es| :: i in loaded;
      if pedantic {
        FinishedUnbroken(rec, lim, es, start, loaded);
      }
    }
    if Complete(rec, lim, es, start, pedantic) {
      assert forall i | 0 <= i < |es| :: i in loaded;
    }
  }

  lemma FinishedUnbroken(rec: Records, lim: Limits, es: seq<Entry>, start: nat, loaded: set<nat>)
    requires forall i | 0 <= i < |es| :: i in loaded
    requires forall i | i in loaded :: i < |es|
    requires Filled(rec, lim, es, loaded, start) && Fits(rec, lim, es, start)
    ensures Unbroken(rec, lim, es, start)
  {
    if es != [] {
      assert 0 in loaded;
    }
  }
}
