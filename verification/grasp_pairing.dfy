/** Handover pairing of grasp records (oikit/oi_shape/oi_shape.py, lines
    144-169): each handover record looks for its partner from the start of
    its category onward, takes the first record with the same timestamp,
    object and pass stage but a different provenance, checks that the two
    subject fields cross-match, and records the partner's hand; unpaired
    handover records are then dropped.  The scan does not stop at the end of
    the category: it runs to the end of the whole list. */
module GraspPairing {
  import opened Wrappers
  import ShapeUtils
  import Grasp

  type GraspItem = Grasp.GraspItem

  /** The match predicate of lines 155-158. */
  predicate IsPartner(g: GraspItem, h: GraspItem) {
    g.seqTs == h.seqTs && g.objId == h.objId && g.passStage == h.passStage && g.source != h.source
  }

  /** The assertion of line 160: each side's subject is the other's alternate. */
  predicate CrossMatch(g: GraspItem, h: GraspItem) {
    Some(g.subjectId) == h.subjectAltId && g.subjectAltId == Some(h.subjectId)
  }

  lemma IsPartnerSymmetric(g: GraspItem, h: GraspItem)
    ensures IsPartner(g, h) <==> IsPartner(h, g)
    ensures !IsPartner(g, g)
  {
  }

  // -----------------------------------------------------------------------
  // category start offset
  // -----------------------------------------------------------------------

  predicate NonDecreasing(xs: seq<nat>) {
    forall a, b :: 0 <= a < b < |xs| ==> xs[a] <= xs[b]
  }

  /** The `for bidx in category_begin_idx` loop of lines 148-152, continuing
      from the value `cur` already assigned: every offset not above `i` is
      assigned in turn, and the loop stops at the first larger one.  None
      stands for a loop that assigned nothing. */
  function CategoryStartFrom(begins: seq<nat>, i: nat, cur: Option<nat>): Option<nat>
    decreases |begins|
  {
    if |begins| == 0 then cur
    else if begins[0] <= i then CategoryStartFrom(begins[1..], i, Some(begins[0]))
    else cur
  }

  function CategoryStart(begins: seq<nat>, i: nat): Option<nat> {
    CategoryStartFrom(begins, i, None)
  }

  /** Continuing the loop from an assigned value gives the largest offset
      not above `i`, or the value already held when every offset is larger. */
  lemma {:induction false} CategoryStartFromIsLargest(begins: seq<nat>, i: nat, c: nat)
    requires NonDecreasing(begins) && c <= i
    requires |begins| > 0 ==> c <= begins[0]
    ensures var r := CategoryStartFrom(begins, i, Some(c));
      && r.Some? && r.value <= i
      && (r.value == c || r.value in begins)
      && (forall b :: b in begins && b <= i ==> b <= r.value)
    decreases |begins|
  {
    if |begins| > 0 && begins[0] <= i {
      var rest := begins[1..];
      assert NonDecreasing(rest);
      assert |rest| > 0 ==> begins[0] <= rest[0];
      CategoryStartFromIsLargest(rest, i, begins[0]);
      assert forall b :: b in begins ==> b == begins[0] || b in rest;
    } else if |begins| > 0 {
      assert forall b :: b in begins ==> begins[0] <= b by {
        forall b | b in begins ensures begins[0] <= b {
          var k :| 0 <= k < |begins| && begins[k] == b;
        }
      }
    }
  }

  /** With non-decreasing offsets starting at 0 (one per category, as the
      crawl records them) the offset chosen for record `i` is the largest
      offset not above `i`. */
  lemma CategoryStartIsLargest(begins: seq<nat>, i: nat)
    requires NonDecreasing(begins) && |begins| > 0 && begins[0] == 0
    ensures var r := CategoryStart(begins, i);
      && r.Some? && r.value <= i && r.value in begins
      && (forall b :: b in begins && b <= i ==> b <= r.value)
  {
    var rest := begins[1..];
    assert NonDecreasing(rest);
    CategoryStartFromIsLargest(rest, i, 0);
    assert forall b :: b in begins ==> b == begins[0] || b in rest;
  }

  /** The same search as a loop with an explicit "assigned" flag. */
  method FindCategoryStart(begins: seq<nat>, i: nat) returns (r: Option<nat>)
    ensures r == CategoryStart(begins, i)
  {
    r := None;
    var k := 0;
    while k < |begins| && begins[k] <= i
      invariant 0 <= k <= |begins|
      invariant CategoryStartFrom(begins[k..], i, r) == CategoryStart(begins, i)
    {
      assert begins[k..][1..] == begins[k + 1..];
      r := Some(begins[k]);
      k := k + 1;
    }
  }

  // -----------------------------------------------------------------------
  // first-match scan
  // -----------------------------------------------------------------------

  /** Lines 153-159: the first position at or after `from` holding a partner of `g`. */
  function FirstMatch(gs: seq<GraspItem>, g: GraspItem, from: nat): (r: Option<nat>)
    ensures r.Some? ==> from <= r.value < |gs| && IsPartner(g, gs[r.value])
    ensures r.Some? ==> forall j :: from <= j < r.value ==> !IsPartner(g, gs[j])
    ensures r.None? ==> forall j :: from <= j < |gs| ==> !IsPartner(g, gs[j])
    decreases |gs| - from
  {
    if from >= |gs| then None
    else if IsPartner(g, gs[from]) then Some(from)
    else FirstMatch(gs, g, from + 1)
  }

  /** Lines 146-168 for record `i`: records without an alternate subject are
      left alone; a record before any category start aborts (the unbound
      `cat_begin_idx`); otherwise the first partner from the category start
      on supplies the alternate hand when the subjects cross-match, and the
      assertion aborts when they do not; without a partner the record is
      left alone. */
  function PairOne(gs: seq<GraspItem>, begins: seq<nat>, i: nat): (r: Result<GraspItem>)
    requires i < |gs|
    ensures gs[i].subjectAltId.None? ==> r == Success(gs[i])
    ensures r.Success? ==> r.value == gs[i].(alt := r.value.alt)
    ensures r.Success? && r.value != gs[i] ==>
      && gs[i].subjectAltId.Some?
      && CategoryStart(begins, i).Some?
      && var j := FirstMatch(gs, gs[i], CategoryStart(begins, i).value);
         j.Some? && j.value != i && IsPartner(gs[i], gs[j.value]) && CrossMatch(gs[i], gs[j.value])
         && r.value.alt == Some(gs[j.value].hand)
    ensures gs[i].subjectAltId.Some? && CategoryStart(begins, i).None? ==> r.Failure?
    ensures gs[i].subjectAltId.Some? && CategoryStart(begins, i).Some? ==>
      var j := FirstMatch(gs, gs[i], CategoryStart(begins, i).value);
      && (j.None? ==> r == Success(gs[i]))
      && (j.Some? ==> (r.Success? <==> CrossMatch(gs[i], gs[j.value])))
      && (j.Some? && r.Success? ==> r.value == gs[i].(alt := Some(gs[j.value].hand)))
  {
    var g := gs[i];
    if g.subjectAltId.None? then Success(g)
    else match CategoryStart(begins, i)
      case None => Failure(UnboundName("cat_begin_idx"))
      case Some(start) =>
        match FirstMatch(gs, g, start)
        case None => Success(g)
        case Some(j) =>
          if CrossMatch(g, gs[j]) then Success(g.(alt := Some(gs[j].hand)))
          else Failure(AssertionFailed("subject ids do not cross-match"))
  }

  /** The pairing pass over the first `n` records. */
  function PairPrefix(gs: seq<GraspItem>, begins: seq<nat>, n: nat): Result<seq<GraspItem>>
    requires n <= |gs|
    decreases n
  {
    if n == 0 then Success([])
    else match PairPrefix(gs, begins, n - 1)
      case Failure(e) => Failure(e)
      case Success(done) =>
        match PairOne(gs, begins, n - 1)
        case Failure(e) => Failure(e)
        case Success(g) => Success(done + [g])
  }

  /** The pass over a prefix succeeds exactly when every record of it
      pairs, and then holds each record's pairing in order. */
  lemma {:induction false} PairPrefixSpec(gs: seq<GraspItem>, begins: seq<nat>, n: nat)
    requires n <= |gs|
    ensures var r := PairPrefix(gs, begins, n);
      && (r.Success? <==> forall i :: 0 <= i < n ==> PairOne(gs, begins, i).Success?)
      && (r.Success? ==> |r.value| == n && forall i :: 0 <= i < n ==> r.value[i] == PairOne(gs, begins, i).value)
    decreases n
  {
    if n > 0 {
      PairPrefixSpec(gs, begins, n - 1);
    }
  }

  /** Once a prefix fails, every longer prefix fails the same way. */
  lemma {:induction false} PairPrefixFailureStays(gs: seq<GraspItem>, begins: seq<nat>, n: nat, m: nat)
    requires n <= m <= |gs|
    requires PairPrefix(gs, begins, n).Failure?
    ensures PairPrefix(gs, begins, m) == PairPrefix(gs, begins, n)
    decreases m - n
  {
    if n < m {
      PairPrefixFailureStays(gs, begins, n, m - 1);
    }
  }

  /** The whole pairing pass. */
  function Pair(gs: seq<GraspItem>, begins: seq<nat>): (r: Result<seq<GraspItem>>)
    ensures r.Success? ==> |r.value| == |gs|
  {
    PairPrefixSpec(gs, begins, |gs|);
    PairPrefix(gs, begins, |gs|)
  }

  /** The pairing pass as the source's loop: the first failing record aborts. */
  method PairHandovers(gs: seq<GraspItem>, begins: seq<nat>) returns (r: Result<seq<GraspItem>>)
    ensures r == Pair(gs, begins)
  {
    var done: seq<GraspItem> := [];
    var i := 0;
    while i < |gs|
      invariant 0 <= i <= |gs|
      invariant PairPrefix(gs, begins, i) == Success(done)
    {
      var start := FindCategoryStart(begins, i);
      var g := gs[i];
      if g.subjectAltId.Some? {
        if start.None? {
          PairPrefixFailureStays(gs, begins, i + 1, |gs|);
          return Failure(UnboundName("cat_begin_idx"));
        }
        var j := start.value;
        while j < |gs| && !IsPartner(g, gs[j])
          invariant start.value <= j
          invariant FirstMatch(gs, g, j) == FirstMatch(gs, g, start.value)
          decreases |gs| - j
        {
          j := j + 1;
        }
        if j < |gs| {
          if !CrossMatch(g, gs[j]) {
            PairPrefixFailureStays(gs, begins, i + 1, |gs|);
            return Failure(AssertionFailed("subject ids do not cross-match"));
          }
          g := g.(alt := Some(gs[j].hand));
        }
      }
      done := done + [g];
      i := i + 1;
    }
    r := Success(done);
  }

  // -----------------------------------------------------------------------
  // dropping unpaired handovers
  // -----------------------------------------------------------------------

  /** The filter predicate of line 169. */
  predicate Survives(g: GraspItem) {
    g.actionId != ShapeUtils.HandoverCode || g.alt.Some?
  }

  /** Line 169: keep non-handover records and handover records with a partner. */
  function DropUnpaired(gs: seq<GraspItem>): (r: seq<GraspItem>)
    ensures forall g :: g in r <==> g in gs && Survives(g)
    ensures |r| <= |gs|
    decreases |gs|
  {
    if |gs| == 0 then []
    else
      var rest := DropUnpaired(gs[1..]);
      assert forall g :: g in gs <==> g == gs[0] || g in gs[1..];
      if Survives(gs[0]) then [gs[0]] + rest else rest
  }

  /** The drop is a filter that keeps the original order: it distributes over
      concatenation and keeps or removes each single record. */
  lemma {:induction false} DropUnpairedIsOrderedFilter(a: seq<GraspItem>, b: seq<GraspItem>)
    ensures DropUnpaired(a + b) == DropUnpaired(a) + DropUnpaired(b)
    ensures |a| == 1 ==> DropUnpaired(a) == (if Survives(a[0]) then a else [])
    decreases |a|
  {
    if |a| > 0 {
      var head := if Survives(a[0]) then [a[0]] else [];
      assert (a + b)[0] == a[0] && (a + b)[1..] == a[1..] + b;
      assert DropUnpaired(a + b) == head + DropUnpaired(a[1..] + b);
      assert DropUnpaired(a) == head + DropUnpaired(a[1..]);
      DropUnpairedIsOrderedFilter(a[1..], b);
      if |a| == 1 {
        assert a[1..] == [];
      }
    } else {
      assert a + b == b;
    }
  }

  /** Lines 144-169: pairing and dropping happen only when the handover
      intent was requested. */
  function Resolve(gs: seq<GraspItem>, begins: seq<nat>, handoverRequested: bool): (r: Result<seq<GraspItem>>)
    ensures !handoverRequested ==> r == Success(gs)
    ensures handoverRequested && r.Success? ==> forall g :: g in r.value ==> Survives(g)
  {
    if !handoverRequested then Success(gs)
    else
      var paired :- Pair(gs, begins);
      Success(DropUnpaired(paired))
  }

  /** The records that are not handovers, in order. */
  function NonHandovers(gs: seq<GraspItem>): seq<GraspItem>
    decreases |gs|
  {
    if |gs| == 0 then []
    else (if gs[0].actionId != ShapeUtils.HandoverCode then [gs[0]] else []) + NonHandovers(gs[1..])
  }

  /** The drop removes handover records only. */
  lemma {:induction false} NonHandoversDrop(gs: seq<GraspItem>)
    ensures NonHandovers(DropUnpaired(gs)) == NonHandovers(gs)
    decreases |gs|
  {
    if |gs| > 0 {
      NonHandoversDrop(gs[1..]);
      if Survives(gs[0]) {
        assert DropUnpaired(gs)[0] == gs[0] && DropUnpaired(gs)[1..] == DropUnpaired(gs[1..]);
      }
    }
  }

  /** Two lists that agree position by position on the action, and on the
      whole record away from handovers, have the same non-handover records. */
  lemma {:induction false} NonHandoversPointwise(a: seq<GraspItem>, b: seq<GraspItem>)
    requires |a| == |b|
    requires forall i :: 0 <= i < |a| ==> b[i].actionId == a[i].actionId
    requires forall i :: 0 <= i < |a| && a[i].actionId != ShapeUtils.HandoverCode ==> b[i] == a[i]
    ensures NonHandovers(a) == NonHandovers(b)
    decreases |a|
  {
    if |a| > 0 {
      assert forall i :: 0 <= i < |a| - 1 ==> a[1..][i] == a[i + 1] && b[1..][i] == b[i + 1];
      NonHandoversPointwise(a[1..], b[1..]);
    }
  }

  /** Resolution keeps every non-handover record, in order, when only
      handover records carry an alternate subject. */
  lemma ResolveKeepsNonHandovers(gs: seq<GraspItem>, begins: seq<nat>, handoverRequested: bool)
    requires forall g :: g in gs && g.actionId != ShapeUtils.HandoverCode ==> g.subjectAltId.None?
    requires Resolve(gs, begins, handoverRequested).Success?
    ensures NonHandovers(Resolve(gs, begins, handoverRequested).value) == NonHandovers(gs)
  {
    if handoverRequested {
      var p := Pair(gs, begins).value;
      forall i | 0 <= i < |gs|
        ensures p[i].actionId == gs[i].actionId
        ensures gs[i].actionId != ShapeUtils.HandoverCode ==> p[i] == gs[i]
      {
        PairFacts(gs, begins, i);
        assert gs[i] in gs;
      }
      NonHandoversPointwise(gs, p);
      NonHandoversDrop(p);
    }
  }

  /** What pairing did to each record: every record keeps all its fields but
      the alternate hand; a record without an alternate subject is unchanged;
      a record that received one got it from the first partner at or after
      its category start, a different record whose subjects cross-match. */
  lemma PairFacts(gs: seq<GraspItem>, begins: seq<nat>, i: nat)
    requires Pair(gs, begins).Success? && i < |gs|
    ensures var p := Pair(gs, begins).value;
      && p[i] == gs[i].(alt := p[i].alt)
      && (gs[i].subjectAltId.None? ==> p[i] == gs[i])
      && (p[i] != gs[i] ==>
            exists j :: 0 <= j < |gs| && j != i && IsPartner(gs[i], gs[j]) && CrossMatch(gs[i], gs[j])
                        && p[i].alt == Some(gs[j].hand))
  {
    var p := Pair(gs, begins).value;
    PairPrefixSpec(gs, begins, |gs|);
    assert p[i] == PairOne(gs, begins, i).value;
    if p[i] != gs[i] {
      var j := FirstMatch(gs, gs[i], CategoryStart(begins, i).value).value;
      assert IsPartner(gs[i], gs[j]) && CrossMatch(gs[i], gs[j]);
    }
  }

  /** A record that survives resolution is an input record, possibly with a
      hand added: a record carrying a hand got it from an input record with
      the same timestamp, object and pass stage, a different provenance, and
      cross-matching subjects. */
  lemma ResolvedOrigin(gs: seq<GraspItem>, begins: seq<nat>, handoverRequested: bool, g: GraspItem)
    requires forall x :: x in gs ==> x.alt.None?
    requires Resolve(gs, begins, handoverRequested).Success?
    requires g in Resolve(gs, begins, handoverRequested).value
    ensures g.(alt := None) in gs
    ensures g.alt.Some? ==> exists x :: x in gs && IsPartner(g, x) && CrossMatch(g, x) && g.alt == Some(x.hand)
  {
    if handoverRequested {
      var p := Pair(gs, begins).value;
      assert g in p;
      var i :| 0 <= i < |p| && p[i] == g;
      PairFacts(gs, begins, i);
      assert gs[i] in gs;
      assert g.(alt := None) == gs[i];
      if g.alt.Some? {
        var j :| 0 <= j < |gs| && j != i && IsPartner(gs[i], gs[j]) && CrossMatch(gs[i], gs[j])
                 && p[i].alt == Some(gs[j].hand);
        assert gs[j] in gs;
      }
    }
  }

  /** Pairing is mutual within a category window: when record `i` takes
      record `j` as partner and `i` lies at or after `j`'s category start,
      record `j` is paired too, so it survives the drop. */
  lemma PartnerIsPaired(gs: seq<GraspItem>, begins: seq<nat>, i: nat, j: nat)
    requires Pair(gs, begins).Success? && i < |gs| && j < |gs|
    requires IsPartner(gs[i], gs[j]) && CrossMatch(gs[i], gs[j])
    requires CategoryStart(begins, j).Some? && CategoryStart(begins, j).value <= i
    ensures Pair(gs, begins).value[j].alt.Some?
  {
    var p := Pair(gs, begins).value;
    PairPrefixSpec(gs, begins, |gs|);
    assert p[j] == PairOne(gs, begins, j).value;
    var start := CategoryStart(begins, j).value;
    var m := FirstMatch(gs, gs[j], start);
    assert IsPartner(gs[j], gs[i]);
    assert m.Some?;
    assert CrossMatch(gs[j], gs[m.value]);
  }
}
