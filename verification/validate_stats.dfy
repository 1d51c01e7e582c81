/**
 `validateStats`: the reports one creation call produces. The name is
 checked once; then every tag pair is visited, in the map's iteration
 order, and its key, its value and the value's sanitized form are each
 checked, with no early exit.
 */
module StatsValidation {
  import opened Wrappers
  import opened Utf8
  import opened StatValidation

  /** A tag set: each key maps to one value. A nil map iterates like the empty one. */
  type Tags = map<Bytes, Bytes>

  /**
   The tag-value sanitizer `tags.ReplaceChars`. Its rules live outside this
   model, so it is a parameter: any deterministic function of the value.
   */
  type Sanitizer = Bytes -> Bytes

  /** One violation, with the role of the offending string and, for tags, its key. */
  datatype Report =
    | BadName(err: StatError)
    | BadKey(key: Bytes, err: StatError)
    | BadValue(key: Bytes, err: StatError)
    | Unsanitized(key: Bytes, value: Bytes, clean: Bytes)

  /** The key a tag report is about. */
  predicate About(r: Report, k: Bytes) {
    !r.BadName? && r.key == k
  }

  /** A sequence without repeated elements. */
  predicate Distinct(order: seq<Bytes>) {
    forall i, j :: 0 <= i < j < |order| ==> order[i] != order[j]
  }

  /**
   One iteration order of a Go `range` over `tags`: every key exactly once.
   Go randomizes it, so the model takes it as an input.
   */
  predicate IsIterationOrder(tags: Tags, order: seq<Bytes>) {
    && (forall k :: k in order ==> k in tags)
    && (forall k :: k in tags ==> k in order)
    && Distinct(order)
  }

  /**
   Every tag map has an iteration order, so no property stated for all
   iteration orders is vacuous.
   */
  lemma {:induction false} OrderExists(tags: Tags) returns (order: seq<Bytes>)
    ensures IsIterationOrder(tags, order)
    decreases |tags.Keys|
  {
    if tags.Keys == {} {
      order := [];
    } else {
      var k :| k in tags.Keys;
      var rest := tags - {k};
      assert rest.Keys == tags.Keys - {k};
      var tail := OrderExists(rest);
      order := [k] + tail;
    }
  }

  /** The report for the name, if `validateStat` rejects it. */
  function NameReports(name: Bytes): (rs: seq<Report>)
    ensures |rs| <= 1
    ensures rs == [] <==> ValidateStat(name) == None
  {
    match ValidateStat(name)
    case None => []
    case Some(e) => [BadName(e)]
  }

  /** The reports for one tag pair, in source order: key, value, sanitizer mismatch. */
  function PairReports(k: Bytes, v: Bytes, replace: Sanitizer): (rs: seq<Report>)
  {
    (match ValidateStat(k) case None => [] case Some(e) => [BadKey(k, e)])
    + (match ValidateStat(v) case None => [] case Some(e) => [BadValue(k, e)])
    + (if replace(v) != v then [Unsanitized(k, v, replace(v))] else [])
  }

  /** The reports for the tag pairs visited in `order`, one pair after another. */
  function OrderReports(tags: Tags, replace: Sanitizer, order: seq<Bytes>): (rs: seq<Report>)
    requires forall k :: k in order ==> k in tags
    ensures |rs| <= 3 * |order|
    ensures forall r :: r in rs ==> !r.BadName? && r.key in order
    decreases |order|
  {
    if |order| == 0 then []
    else PairReports(order[0], tags[order[0]], replace) + OrderReports(tags, replace, order[1..])
  }

  /** Go's `validateStats(name, m)` for one iteration order of `m`. */
  function ValidateStats(name: Bytes, tags: Tags, replace: Sanitizer, order: seq<Bytes>): seq<Report>
    requires IsIterationOrder(tags, order)
  {
    NameReports(name) + OrderReports(tags, replace, order)
  }

  /** The reports in `rs` about key `k`, in order. */
  function ReportsAbout(rs: seq<Report>, k: Bytes): (out: seq<Report>)
    ensures forall r :: r in out ==> r in rs && About(r, k)
    decreases |rs|
  {
    if |rs| == 0 then []
    else (if About(rs[0], k) then [rs[0]] else []) + ReportsAbout(rs[1..], k)
  }

  /** The reports in `rs` about the name. */
  function NameReportsIn(rs: seq<Report>): (out: seq<Report>)
    ensures forall r :: r in out ==> r in rs && r.BadName?
    decreases |rs|
  {
    if |rs| == 0 then []
    else (if rs[0].BadName? then [rs[0]] else []) + NameReportsIn(rs[1..])
  }

  lemma {:induction false} ReportsAboutAppend(a: seq<Report>, b: seq<Report>, k: Bytes)
    ensures ReportsAbout(a + b, k) == ReportsAbout(a, k) + ReportsAbout(b, k)
    decreases |a|
  {
    if |a| > 0 {
      assert (a + b)[1..] == a[1..] + b;
      ReportsAboutAppend(a[1..], b, k);
    } else {
      assert a + b == b;
    }
  }

  lemma {:induction false} NameReportsInAppend(a: seq<Report>, b: seq<Report>)
    ensures NameReportsIn(a + b) == NameReportsIn(a) + NameReportsIn(b)
    decreases |a|
  {
    if |a| > 0 {
      assert (a + b)[1..] == a[1..] + b;
      NameReportsInAppend(a[1..], b);
    } else {
      assert a + b == b;
    }
  }

  /** A sequence whose reports are all about `k` is its own selection for `k`. */
  lemma {:induction false} ReportsAboutAll(rs: seq<Report>, k: Bytes)
    requires forall r :: r in rs ==> About(r, k)
    ensures ReportsAbout(rs, k) == rs
    decreases |rs|
  {
    if |rs| > 0 {
      assert rs[0] in rs;
      ReportsAboutAll(rs[1..], k);
      assert rs == [rs[0]] + rs[1..];
    }
  }

  /** A sequence with no report about `k` selects nothing for `k`. */
  lemma {:induction false} ReportsAboutNone(rs: seq<Report>, k: Bytes)
    requires forall r :: r in rs ==> !About(r, k)
    ensures ReportsAbout(rs, k) == []
    decreases |rs|
  {
    if |rs| > 0 {
      assert rs[0] in rs;
      ReportsAboutNone(rs[1..], k);
    }
  }

  /** Tag reports contain no name report. */
  lemma {:induction false} NameReportsInNone(rs: seq<Report>)
    requires forall r :: r in rs ==> !r.BadName?
    ensures NameReportsIn(rs) == []
    decreases |rs|
  {
    if |rs| > 0 {
      assert rs[0] in rs;
      NameReportsInNone(rs[1..]);
    }
  }

  /** A sequence of name reports is its own selection of name reports. */
  lemma {:induction false} NameReportsInAll(rs: seq<Report>)
    requires forall r :: r in rs ==> r.BadName?
    ensures NameReportsIn(rs) == rs
    decreases |rs|
  {
    if |rs| > 0 {
      assert rs[0] in rs;
      NameReportsInAll(rs[1..]);
      assert rs == [rs[0]] + rs[1..];
    }
  }

  /** Every report of a pair is about that pair's key. */
  lemma PairReportsAbout(k: Bytes, v: Bytes, replace: Sanitizer)
    ensures |PairReports(k, v, replace)| <= 3
    ensures forall r :: r in PairReports(k, v, replace) ==> About(r, k)
  {
  }

  /** Visiting distinct keys, the reports about key `k` are exactly those of its own pair. */
  lemma {:induction false} OrderReportsAbout(tags: Tags, replace: Sanitizer, order: seq<Bytes>, k: Bytes)
    requires forall k :: k in order ==> k in tags
    requires Distinct(order)
    ensures ReportsAbout(OrderReports(tags, replace, order), k) ==
      if k in order then PairReports(k, tags[k], replace) else []
    decreases |order|
  {
    if |order| > 0 {
      var head := PairReports(order[0], tags[order[0]], replace);
      var rest := OrderReports(tags, replace, order[1..]);
      ReportsAboutAppend(head, rest, k);
      PairReportsAbout(order[0], tags[order[0]], replace);
      OrderReportsAbout(tags, replace, order[1..], k);
      if k == order[0] {
        ReportsAboutAll(head, k);
        assert k !in order[1..];
      } else {
        ReportsAboutNone(head, k);
        assert k in order <==> k in order[1..];
      }
    }
  }

  /**
   Every tag pair is checked, whatever the iteration order: the reports of a
   call about key `k` are exactly the key, value and sanitizer reports of
   the pair `(k, tags[k])`, in that order.
   */
  lemma EveryPairChecked(name: Bytes, tags: Tags, replace: Sanitizer, order: seq<Bytes>, k: Bytes)
    requires IsIterationOrder(tags, order)
    requires k in tags
    ensures ReportsAbout(ValidateStats(name, tags, replace, order), k) == PairReports(k, tags[k], replace)
  {
    var nr := NameReports(name);
    ReportsAboutAppend(nr, OrderReports(tags, replace, order), k);
    ReportsAboutNone(nr, k);
    OrderReportsAbout(tags, replace, order, k);
  }

  /** The name is reported at most once, and only as `validateStat` judges it. */
  lemma NameCheckedOnce(name: Bytes, tags: Tags, replace: Sanitizer, order: seq<Bytes>)
    requires IsIterationOrder(tags, order)
    ensures NameReportsIn(ValidateStats(name, tags, replace, order)) ==
      match ValidateStat(name) case None => [] case Some(e) => [BadName(e)]
  {
    var nr := NameReports(name);
    var tr := OrderReports(tags, replace, order);
    NameReportsInAppend(nr, tr);
    NameReportsInAll(nr);
    NameReportsInNone(tr);
  }

  /**
   A sanitizer-mismatch report for key `k` appears exactly when `k` is a tag
   whose value differs from its sanitized form, whether or not the value
   also failed `validateStat`.
   */
  lemma UnsanitizedIff(name: Bytes, tags: Tags, replace: Sanitizer, order: seq<Bytes>, k: Bytes, v: Bytes, c: Bytes)
    requires IsIterationOrder(tags, order)
    ensures Unsanitized(k, v, c) in ValidateStats(name, tags, replace, order) <==>
      k in tags && v == tags[k] && c == replace(v) && c != v
  {
    var rs := ValidateStats(name, tags, replace, order);
    var u := Unsanitized(k, v, c);
    if u in rs {
      assert k in order;
      EveryPairChecked(name, tags, replace, order, k);
      assert u in ReportsAbout(rs, k) by {
        ReportsAboutMember(rs, k, u);
      }
    }
    if k in tags && v == tags[k] && c == replace(v) && c != v {
      EveryPairChecked(name, tags, replace, order, k);
      assert u in PairReports(k, v, replace);
    }
  }

  /** Selecting by key keeps every report about that key. */
  lemma {:induction false} ReportsAboutMember(rs: seq<Report>, k: Bytes, r: Report)
    requires r in rs && About(r, k)
    ensures r in ReportsAbout(rs, k)
    decreases |rs|
  {
    if rs[0] != r {
      assert r in rs[1..];
      ReportsAboutMember(rs[1..], k, r);
    }
  }

  /** A sequence of distinct elements has as many elements as its set. */
  lemma {:induction false} DistinctCard(order: seq<Bytes>)
    requires Distinct(order)
    ensures |set k | k in order| == |order|
    decreases |order|
  {
    if |order| > 0 {
      var tail := order[1..];
      DistinctCard(tail);
      assert order[0] !in tail;
      assert (set k | k in order) == {order[0]} + (set k | k in tail);
    }
  }

  /** A call reports at most once for the name and at most three times per tag pair. */
  lemma ReportBound(name: Bytes, tags: Tags, replace: Sanitizer, order: seq<Bytes>)
    requires IsIterationOrder(tags, order)
    ensures |ValidateStats(name, tags, replace, order)| <= 1 + 3 * |tags|
  {
    DistinctCard(order);
    assert (set k | k in order) == tags.Keys;
  }

  /**
   A call produces no report exactly when the name, every key and every
   value pass `validateStat` and every value is already sanitized.
   */
  lemma SilentIff(name: Bytes, tags: Tags, replace: Sanitizer, order: seq<Bytes>)
    requires IsIterationOrder(tags, order)
    ensures ValidateStats(name, tags, replace, order) == [] <==>
      && ValidateStat(name) == None
      && forall k :: k in tags ==>
           ValidateStat(k) == None && ValidateStat(tags[k]) == None && replace(tags[k]) == tags[k]
  {
    var rs := ValidateStats(name, tags, replace, order);
    if rs == [] {
      NameCheckedOnce(name, tags, replace, order);
      forall k | k in tags
        ensures ValidateStat(k) == None && ValidateStat(tags[k]) == None && replace(tags[k]) == tags[k]
      {
        EveryPairChecked(name, tags, replace, order, k);
      }
    } else {
      var r := rs[0];
      assert r in rs;
      if !r.BadName? {
        var k := r.key;
        assert r in OrderReports(tags, replace, order);
        assert k in tags;
        EveryPairChecked(name, tags, replace, order, k);
        ReportsAboutMember(rs, k, r);
      }
    }
  }

  /** Nil or empty tags with a valid name: the call reports nothing. */
  lemma ValidNameNoTags(name: Bytes, replace: Sanitizer)
    requires ValidateStat(name) == None
    ensures IsIterationOrder(map[], [])
    ensures ValidateStats(name, map[], replace, []) == []
  {
  }

  /** Removing the element at `i` from a sequence without repetitions removes exactly that value. */
  lemma RemoveAt(order: seq<Bytes>, i: nat)
    requires i < |order| && Distinct(order)
    ensures Distinct(order[..i] + order[i + 1..])
    ensures forall x :: x in order[..i] + order[i + 1..] <==> x in order && x != order[i]
  {
    var o' := order[..i] + order[i + 1..];
    forall a, b | 0 <= a < b < |o'| ensures o'[a] != o'[b] {
      var a' := if a < i then a else a + 1;
      var b' := if b < i then b else b + 1;
      assert o'[a] == order[a'] && o'[b] == order[b'];
    }
    forall x ensures x in o' <==> x in order && x != order[i] {
      if x in o' {
        var j :| 0 <= j < |o'| && o'[j] == x;
        if j < i { assert order[j] == x; } else { assert order[j + 1] == x; }
      }
      if x in order && x != order[i] {
        var j :| 0 <= j < |order| && order[j] == x;
        if j < i { assert o'[j] == x; } else { assert o'[j - 1] == x; }
      }
    }
  }

  /** Dropping the head of one order and the same key from the other leaves two orders of the same keys. */
  lemma SameKeysWithout(o1: seq<Bytes>, o2: seq<Bytes>, i: nat) returns (o2': seq<Bytes>)
    requires |o1| > 0 && i < |o2| && o2[i] == o1[0]
    requires Distinct(o1) && Distinct(o2)
    requires forall k :: k in o1 <==> k in o2
    ensures o2' == o2[..i] + o2[i + 1..]
    ensures Distinct(o1[1..]) && Distinct(o2')
    ensures forall k :: k in o1[1..] <==> k in o2'
  {
    o2' := o2[..i] + o2[i + 1..];
    RemoveAt(o2, i);
    RemoveAt(o1, 0);
    assert o1[..0] + o1[1..] == o1[1..];
    forall x ensures x in o1[1..] <==> x in o2' {
      assert x in o1[..0] + o1[1..] <==> x in o1 && x != o1[0];
      assert x in o2' <==> x in o2 && x != o1[0];
    }
  }

  /** The number of reports does not depend on the iteration order. */
  lemma {:induction false} OrderReportsCount(tags: Tags, replace: Sanitizer, o1: seq<Bytes>, o2: seq<Bytes>)
    requires forall k :: k in o1 ==> k in tags
    requires Distinct(o1) && Distinct(o2)
    requires forall k :: k in o1 <==> k in o2
    ensures forall k :: k in o2 ==> k in tags
    ensures multiset(OrderReports(tags, replace, o1)) == multiset(OrderReports(tags, replace, o2))
    decreases |o1|
  {
    if |o1| > 0 {
      var k := o1[0];
      assert k in o2;
      var i :| 0 <= i < |o2| && o2[i] == k;
      var o2' := SameKeysWithout(o1, o2, i);
      OrderReportsCount(tags, replace, o1[1..], o2');
      OrderReportsSplit(tags, replace, o2, i);
      assert OrderReports(tags, replace, o1) ==
        PairReports(k, tags[k], replace) + OrderReports(tags, replace, o1[1..]);
    }
  }

  /** Taking one key out of an order takes out exactly its pair's reports. */
  lemma OrderReportsSplit(tags: Tags, replace: Sanitizer, order: seq<Bytes>, i: nat)
    requires i < |order|
    requires forall k :: k in order ==> k in tags
    ensures forall k :: k in order[..i] + order[i + 1..] ==> k in tags
    ensures multiset(OrderReports(tags, replace, order)) ==
      multiset(PairReports(order[i], tags[order[i]], replace)) +
      multiset(OrderReports(tags, replace, order[..i] + order[i + 1..]))
  {
    var a, b := order[..i], order[i + 1..];
    var x := order[i];
    assert order == a + ([x] + b);
    OrderReportsConcat(tags, replace, a, [x] + b);
    OrderReportsConcat(tags, replace, a, b);
    assert ([x] + b)[1..] == b;
    assert OrderReports(tags, replace, [x] + b) == PairReports(x, tags[x], replace) + OrderReports(tags, replace, b);
  }

  /** The reports of two orders visited one after the other. */
  lemma {:induction false} OrderReportsConcat(tags: Tags, replace: Sanitizer, a: seq<Bytes>, b: seq<Bytes>)
    requires forall k :: k in a ==> k in tags
    requires forall k :: k in b ==> k in tags
    ensures forall k :: k in a + b ==> k in tags
    ensures OrderReports(tags, replace, a + b) == OrderReports(tags, replace, a) + OrderReports(tags, replace, b)
    decreases |a|
  {
    if |a| > 0 {
      assert (a + b)[1..] == a[1..] + b;
      assert (a + b)[0] == a[0];
      OrderReportsConcat(tags, replace, a[1..], b);
    } else {
      assert a + b == b;
    }
  }

  /** Go's randomized map order changes at most the order of the reports, never which ones. */
  lemma OrderIndependent(name: Bytes, tags: Tags, replace: Sanitizer, o1: seq<Bytes>, o2: seq<Bytes>)
    requires IsIterationOrder(tags, o1) && IsIterationOrder(tags, o2)
    ensures multiset(ValidateStats(name, tags, replace, o1)) == multiset(ValidateStats(name, tags, replace, o2))
  {
    OrderReportsCount(tags, replace, o1, o2);
  }
}
