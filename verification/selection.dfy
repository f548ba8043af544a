/**
 * The filter-and-cap rule of `_validate_and_limit` (scripts/prepare_dataset.py), stated on the
 * records a file yields. A validator is a function from a record to the messages of the schema
 * violations it finds (`validator.iter_errors(rec)`); a record passes when there are none.
 */
module Selection {
  import opened Base
  import opened Seqs

  /** The source's `if errors:` test, negated: the record is kept. */
  predicate Accepts<R>(errs: R -> seq<string>, r: R)
  {
    |errs(r)| == 0
  }

  function Check<R>(errs: R -> seq<string>): R -> bool
  {
    r => Accepts(errs, r)
  }

  /** The records the validator accepts, in their original order. */
  function Valid<R>(errs: R -> seq<string>, rs: seq<R>): seq<R>
  {
    Keep(Check(errs), rs)
  }

  /** The `[WARN]` line printed for a skipped record: file name, 0-based record index, first message. */
  datatype Warning = Warning(file: string, index: nat, message: string)

  /** One warning per rejected record of `rs`, in order, indexed by the record's position in `rs`. */
  function Warnings<R>(file: string, errs: R -> seq<string>, rs: seq<R>): seq<Warning>
    decreases |rs|
  {
    if |rs| == 0 then []
    else
      var last := rs[|rs| - 1];
      Warnings(file, errs, rs[..|rs| - 1])
        + (if Accepts(errs, last) then [] else [Warning(file, |rs| - 1, errs(last)[0])])
  }

  /**
   * The number of accepted records after which the loop breaks. `if max_n and ...` makes `None`
   * and `0` mean no limit; any other value breaks once `len(filtered) >= max_n`, which for a
   * negative value already holds after the first accepted record.
   */
  function Limit(maxN: Option<int>): (k: Option<nat>)
    ensures k.Some? ==> k.value >= 1
    ensures forall count: nat :: count >= 1 ==> (BreakTest(maxN, count) <==> k.Some? && count >= k.value)
  {
    match maxN
    case None => None
    case Some(n) => if n == 0 then None else if n > 0 then Some(n) else Some(1)
  }

  /** Line 53's test `max_n and len(filtered) >= max_n`, for `len(filtered) == count`. */
  predicate BreakTest(maxN: Option<int>, count: nat)
  {
    maxN.Some? && maxN.value != 0 && count >= maxN.value
  }

  /** The records `rs` already contain enough accepted ones to make the loop break. */
  predicate Reached<R>(errs: R -> seq<string>, rs: seq<R>, maxN: Option<int>)
  {
    Limit(maxN).Some? && |Valid(errs, rs)| >= Limit(maxN).value
  }

  /** The records `_validate_and_limit` returns when no parse error intervenes: the first accepted ones, up to the limit. */
  function FilterCap<R>(errs: R -> seq<string>, rs: seq<R>, maxN: Option<int>): (kept: seq<R>)
    ensures |kept| <= |Valid(errs, rs)| && kept == Valid(errs, rs)[..|kept|]
    ensures Limit(maxN).Some? ==> |kept| <= Limit(maxN).value
    ensures |kept| < |Valid(errs, rs)| ==> Limit(maxN).Some? && |kept| == Limit(maxN).value
  {
    var v := Valid(errs, rs);
    match Limit(maxN)
    case None => v
    case Some(k) => v[..Min(k, |v|)]
  }

  /** How many records the loop takes from `rs` before breaking once `k` records are accepted. */
  function StopAt<R>(errs: R -> seq<string>, rs: seq<R>, k: nat): (n: nat)
    ensures n <= |rs|
    decreases |rs|
  {
    if |rs| == 0 || |Valid(errs, rs[..|rs| - 1])| < k then |rs|
    else StopAt(errs, rs[..|rs| - 1], k)
  }

  /** How many records of `rs` the loop consumes: all of them, unless the limit makes it break earlier. */
  function Consumed<R>(errs: R -> seq<string>, rs: seq<R>, maxN: Option<int>): (n: nat)
    ensures n <= |rs|
  {
    match Limit(maxN)
    case None => |rs|
    case Some(k) => StopAt(errs, rs, k)
  }

  /** The accepted records of a prefix are a prefix of the accepted records. */
  lemma ValidPrefix<R>(errs: R -> seq<string>, rs: seq<R>, j: nat)
    requires j <= |rs|
    ensures |Valid(errs, rs[..j])| <= |Valid(errs, rs)|
    ensures Valid(errs, rs[..j]) == Valid(errs, rs)[..|Valid(errs, rs[..j])|]
  {
    KeepPrefix(Check(errs), rs, j);
  }

  /** One more record adds at most one accepted record. */
  lemma ValidStep<R>(errs: R -> seq<string>, rs: seq<R>, j: nat)
    requires j < |rs|
    ensures Valid(errs, rs[..j + 1])
         == Valid(errs, rs[..j]) + (if Accepts(errs, rs[j]) then [rs[j]] else [])
  {
    assert rs[..j + 1][..j] == rs[..j];
  }

  /** One more record adds a warning exactly when it is rejected, carrying its index and first message. */
  lemma WarningsStep<R>(file: string, errs: R -> seq<string>, rs: seq<R>, j: nat)
    requires j < |rs|
    ensures Warnings(file, errs, rs[..j + 1])
         == Warnings(file, errs, rs[..j])
            + (if Accepts(errs, rs[j]) then [] else [Warning(file, j, errs(rs[j])[0])])
  {
    assert rs[..j + 1][..j] == rs[..j];
  }

  /** The loop breaks at the record that fills the limit, and nowhere else. */
  lemma {:induction false} StopAtExact<R>(errs: R -> seq<string>, rs: seq<R>, k: nat, j: nat)
    requires 1 <= j <= |rs|
    requires |Valid(errs, rs[..j])| >= k > |Valid(errs, rs[..j - 1])|
    ensures StopAt(errs, rs, k) == j
    decreases |rs|
  {
    var init := rs[..|rs| - 1];
    if j < |rs| {
      assert init[..j] == rs[..j] && init[..j - 1] == rs[..j - 1];
      ValidPrefix(errs, init, j);
      StopAtExact(errs, init, k, j);
    } else {
      assert rs[..j - 1] == init;
    }
  }

  /** When the limit is never reached, the loop consumes everything and keeps every accepted record. */
  lemma NotReachedTakesAll<R>(errs: R -> seq<string>, rs: seq<R>, maxN: Option<int>)
    requires !Reached(errs, rs, maxN)
    ensures Consumed(errs, rs, maxN) == |rs|
    ensures FilterCap(errs, rs, maxN) == Valid(errs, rs)
  {
    if |rs| > 0 {
      ValidPrefix(errs, rs, |rs| - 1);
    }
  }

  /** Accepted and rejected records together account for every record: `accepted + rejected == N`. */
  lemma {:induction false} WarningsCount<R>(file: string, errs: R -> seq<string>, rs: seq<R>)
    ensures |Warnings(file, errs, rs)| + |Valid(errs, rs)| == |rs|
    decreases |rs|
  {
    if |rs| > 0 {
      var n := |rs| - 1;
      WarningsCount(file, errs, rs[..n]);
      ValidStep(errs, rs, n);
      WarningsStep(file, errs, rs, n);
      assert rs[..n + 1] == rs;
    }
  }

  /**
   * Every warning names a rejected record: its file, its 0-based index, and the first violation
   * message for it; indices strictly increase, so warnings come out in record order.
   */
  lemma {:induction false} WarningsSound<R>(file: string, errs: R -> seq<string>, rs: seq<R>)
    ensures forall m :: 0 <= m < |Warnings(file, errs, rs)| ==>
              var w := Warnings(file, errs, rs)[m];
              && w.file == file
              && w.index < |rs|
              && !Accepts(errs, rs[w.index])
              && w.message == errs(rs[w.index])[0]
    ensures forall a, b :: 0 <= a < b < |Warnings(file, errs, rs)| ==>
              Warnings(file, errs, rs)[a].index < Warnings(file, errs, rs)[b].index
    decreases |rs|
  {
    if |rs| > 0 {
      var n := |rs| - 1;
      var init := rs[..n];
      WarningsSound(file, errs, init);
      WarningsStep(file, errs, rs, n);
      assert rs[..n + 1] == rs;
      var ws, ws0 := Warnings(file, errs, rs), Warnings(file, errs, init);
      assert forall m :: 0 <= m < |ws0| ==> ws[m] == ws0[m];
      assert forall j :: 0 <= j < n ==> init[j] == rs[j];
    }
  }

  /** Every rejected record gets a warning carrying its index. */
  lemma {:induction false} WarningsComplete<R>(file: string, errs: R -> seq<string>, rs: seq<R>)
    ensures forall j :: 0 <= j < |rs| && !Accepts(errs, rs[j]) ==>
              exists m :: 0 <= m < |Warnings(file, errs, rs)| && Warnings(file, errs, rs)[m].index == j
    decreases |rs|
  {
    if |rs| > 0 {
      var n := |rs| - 1;
      var init := rs[..n];
      WarningsComplete(file, errs, init);
      WarningsStep(file, errs, rs, n);
      assert rs[..n + 1] == rs;
      var ws, ws0 := Warnings(file, errs, rs), Warnings(file, errs, init);
      assert forall m :: 0 <= m < |ws0| ==> ws[m] == ws0[m];
      forall j | 0 <= j < |rs| && !Accepts(errs, rs[j])
        ensures exists m :: 0 <= m < |ws| && ws[m].index == j
      {
        if j == n {
          assert ws[|ws| - 1].index == j;
        } else {
          assert init[j] == rs[j];
          var m :| 0 <= m < |ws0| && ws0[m].index == j;
          assert ws[m].index == j;
        }
      }
    }
  }

  /** What is kept is a subsequence of the records read, in their original order, and every kept record is accepted. */
  lemma FilterCapIsValidSubsequence<R>(errs: R -> seq<string>, rs: seq<R>, maxN: Option<int>)
    ensures IsSubsequence(FilterCap(errs, rs, maxN), rs)
    ensures forall k :: 0 <= k < |FilterCap(errs, rs, maxN)| ==> Accepts(errs, FilterCap(errs, rs, maxN)[k])
  {
    var v := Valid(errs, rs);
    KeepIsSubsequence(Check(errs), rs);
    SubsequencePrefix(v, rs, |FilterCap(errs, rs, maxN)|);
    assert v[..|v|] == v;
  }

  /** With `max_n` `None` or `0` the falsy test never breaks: every accepted record is kept. */
  lemma FilterCapNoLimit<R>(errs: R -> seq<string>, rs: seq<R>, maxN: Option<int>)
    requires maxN == None || maxN == Some(0)
    ensures FilterCap(errs, rs, maxN) == Valid(errs, rs)
    ensures Consumed(errs, rs, maxN) == |rs|
  {
  }

  /** With `max_n = k > 0` the result is the first `min(k, #accepted)` accepted records, so never more than `k`. */
  lemma FilterCapPositive<R>(errs: R -> seq<string>, rs: seq<R>, k: int)
    requires k > 0
    ensures |FilterCap(errs, rs, Some(k))| == Min(k, |Valid(errs, rs)|)
    ensures FilterCap(errs, rs, Some(k)) == Valid(errs, rs)[..|FilterCap(errs, rs, Some(k))|]
    ensures |FilterCap(errs, rs, Some(k))| <= k
  {
  }

  /**
   * With a negative `max_n` the loop breaks after the first accepted record: the result is that
   * record alone, or empty when no record is accepted.
   */
  lemma FilterCapNegative<R>(errs: R -> seq<string>, rs: seq<R>, n: int)
    requires n < 0
    ensures |FilterCap(errs, rs, Some(n))| <= 1
    ensures |FilterCap(errs, rs, Some(n))| == 1 <==> exists j :: 0 <= j < |rs| && Accepts(errs, rs[j])
    ensures |FilterCap(errs, rs, Some(n))| == 1 ==>
              exists j :: 0 <= j < |rs| && FilterCap(errs, rs, Some(n))[0] == rs[j] && Accepts(errs, rs[j])
                       && forall i :: 0 <= i < j ==> !Accepts(errs, rs[i])
  {
    var p := Check(errs);
    var pos, v := Positions(p, rs), Valid(errs, rs);
    var r := FilterCap(errs, rs, Some(n));
    assert Limit(Some(n)) == Some(1);
    assert r == v[..Min(1, |v|)];
    KeepPositions(p, rs);
    if exists j :: 0 <= j < |rs| && Accepts(errs, rs[j]) {
      var j :| 0 <= j < |rs| && Accepts(errs, rs[j]);
      assert j in pos;
      var first := pos[0];
      assert forall m :: 0 <= m < |pos| ==> first <= pos[m];
      assert forall i :: 0 <= i < first ==> i !in pos;
      assert r[0] == v[0] == rs[first];
    } else {
      KeepNone(p, rs);
      assert r == [];
    }
  }

  /** Running the filter again on its own output, with the same limit, returns that output unchanged. */
  lemma FilterCapIdempotent<R>(errs: R -> seq<string>, rs: seq<R>, maxN: Option<int>)
    ensures FilterCap(errs, FilterCap(errs, rs, maxN), maxN) == FilterCap(errs, rs, maxN)
  {
    var r := FilterCap(errs, rs, maxN);
    FilterCapIsValidSubsequence(errs, rs, maxN);
    KeepAll(Check(errs), r);
  }

  /** Once `k` records are accepted, further records change nothing: the loop has already stopped. */
  lemma {:induction false} StopAtPrefix<R>(errs: R -> seq<string>, rs: seq<R>, k: nat, j: nat)
    requires j <= |rs|
    requires |Valid(errs, rs[..j])| >= k
    ensures StopAt(errs, rs, k) == StopAt(errs, rs[..j], k)
    decreases |rs|
  {
    if j < |rs| {
      var init := rs[..|rs| - 1];
      assert init[..j] == rs[..j];
      ValidPrefix(errs, init, j);
      StopAtPrefix(errs, init, k, j);
    } else {
      assert rs[..j] == rs;
    }
  }

  /** When a prefix already fills the limit, the rest of the records affect neither the result nor how far the loop reads. */
  lemma ReachedPrefix<R>(errs: R -> seq<string>, rs: seq<R>, j: nat, maxN: Option<int>)
    requires j <= |rs|
    requires Reached(errs, rs[..j], maxN)
    ensures Reached(errs, rs, maxN)
    ensures FilterCap(errs, rs, maxN) == FilterCap(errs, rs[..j], maxN)
    ensures Consumed(errs, rs, maxN) == Consumed(errs, rs[..j], maxN)
  {
    ValidPrefix(errs, rs, j);
    StopAtPrefix(errs, rs, Limit(maxN).value, j);
  }
}
