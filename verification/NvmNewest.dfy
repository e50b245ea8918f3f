/** Which record wins: properties of the number comparison and of the cache. */
module NvmNewest {
  import opened Bytes
  import opened NvmFormat
  import opened NvmAnalysis
  import opened Results

  // ---------- the cache ----------

  /** The cache holds the first of the records with the greatest extended number for the token. */
  lemma {:induction false} NewestWins(rs: seq<Record>, wrapping: bool, token: seq<Byte>) returns (k: nat)
    requires token in Tokens(rs)
    ensures k < |rs| && Newest(rs, wrapping, token) == Some(rs[k]) && rs[k].item.token == token
    ensures forall j :: 0 <= j < |rs| && rs[j].item.token == token ==>
      Extended(rs[j].seqNo, wrapping) <= Extended(rs[k].seqNo, wrapping)
    ensures forall j :: 0 <= j < k && rs[j].item.token == token ==>
      Extended(rs[j].seqNo, wrapping) < Extended(rs[k].seqNo, wrapping)
  {
    var n := |rs| - 1;
    var init := rs[..n];
    if token in Tokens(init) {
      k := NewestWins(init, wrapping, token);
      assert init[k] == rs[k];
      assert forall j :: 0 <= j < n ==> init[j] == rs[j];
      if rs[n].item.token == token && Extended(rs[n].seqNo, wrapping) > Extended(rs[k].seqNo, wrapping) {
        k := n;
      }
    } else {
      TokensHaveRecords(init, wrapping, token);
      assert forall j :: 0 <= j < n ==> init[j] == rs[j];
      k := n;
    }
  }

  lemma {:induction false} TokensDistinct(rs: seq<Record>)
    ensures forall i, j :: 0 <= i < j < |Tokens(rs)| ==> Tokens(rs)[i] != Tokens(rs)[j]
  {
    if rs != [] {
      TokensDistinct(rs[..|rs| - 1]);
    }
  }

  /** Records that were all seen before change nothing. */
  lemma {:induction false} SeenAgain(u: seq<Record>, v: seq<Record>, wrapping: bool)
    requires forall r :: r in v ==> r in u
    ensures Tokens(u + v) == Tokens(u)
    ensures forall t :: Newest(u + v, wrapping, t) == Newest(u, wrapping, t)
  {
    if v == [] {
      assert u + v == u;
    } else {
      var init, last := v[..|v| - 1], v[|v| - 1];
      SeenAgain(u, init, wrapping);
      assert (u + v)[..|u + v| - 1] == u + init;
      assert (u + v)[|u + v| - 1] == last;
      TokensHaveRecords(u, wrapping, last.item.token);
      assert last in u;
      var k := NewestWins(u, wrapping, last.item.token);
    }
  }

  lemma NothingNewLater(u: seq<Record>, all: seq<Record>, wrapping: bool)
    requires u <= all && forall r :: r in all ==> r in u
    ensures Winners(all, wrapping) == Winners(u, wrapping)
  {
    hide Tokens, Newest;
    var v := all[|u|..];
    assert all == u + v;
    SeenAgain(u, v, wrapping);
  }

  /** Records of one token never share a number. */
  ghost predicate DistinctNumbers(rs: seq<Record>) {
    forall r, s :: r in rs && s in rs && r.item.token == s.item.token && r.seqNo == s.seqNo ==> r == s
  }

  ghost predicate SameRecords(u: seq<Record>, v: seq<Record>) {
    (forall r :: r in u ==> r in v) && (forall r :: r in v ==> r in u)
  }

  /** Every number is one the device can have written. */
  ghost predicate InRange(rs: seq<Record>) {
    forall r :: r in rs ==> r.seqNo <= MAX_MASKED
  }

  lemma ExtendedInjective(m: nat, n: nat, wrapping: bool)
    requires wrapping ==> m <= MAX_MASKED && n <= MAX_MASKED
    requires Extended(m, wrapping) == Extended(n, wrapping)
    ensures m == n
  {}

  /** Without ties, the winner for a token depends only on which records there are. */
  lemma WinnerIsOrderFree(u: seq<Record>, v: seq<Record>, wrapping: bool, token: seq<Byte>)
    requires SameRecords(u, v) && DistinctNumbers(u) && (wrapping ==> InRange(u))
    ensures token in Tokens(u) <==> token in Tokens(v)
    ensures Newest(u, wrapping, token) == Newest(v, wrapping, token)
  {
    hide Newest, Tokens, Extended;
    SameTokens(u, v, wrapping, token);
    SameTokens(v, u, wrapping, token);
    if token in Tokens(u) {
      var i := NewestWins(u, wrapping, token);
      var j := NewestWins(v, wrapping, token);
      assert u[i] in v && v[j] in u;
      ExtendedInjective(u[i].seqNo, v[j].seqNo, wrapping);
    }
  }

  lemma SameTokens(u: seq<Record>, v: seq<Record>, wrapping: bool, token: seq<Byte>)
    requires SameRecords(u, v)
    ensures token in Tokens(u) ==> token in Tokens(v)
    ensures Newest(u, wrapping, token).Some? <==> token in Tokens(u)
  {
    hide Newest, Tokens;
    TokensHaveRecords(u, wrapping, token);
    TokensHaveRecords(v, wrapping, token);
    if token in Tokens(u) {
      var k :| 0 <= k < |u| && u[k].item.token == token;
      assert u[k] in v;
    }
  }

  /** Which reading the numbers ask for depends only on which records there are. */
  lemma ReadingIsOrderFree(u: seq<Record>, v: seq<Record>)
    requires SameRecords(u, v)
    ensures Ambiguous(u) <==> Ambiguous(v)
    ensures Wrapping(u) <==> Wrapping(v)
  {
    hide High, Middle;
    FlagsGoOver(u, v);
    FlagsGoOver(v, u);
  }

  lemma FlagsGoOver(u: seq<Record>, v: seq<Record>)
    requires forall r :: r in u ==> r in v
    ensures HasHigh(u) ==> HasHigh(v)
    ensures HasMiddle(u) ==> HasMiddle(v)
  {
    if HasHigh(u) {
      var k :| 0 <= k < |u| && High(u[k].seqNo);
      assert u[k] in v;
    }
    if HasMiddle(u) {
      var k :| 0 <= k < |u| && Middle(u[k].seqNo);
      assert u[k] in v;
    }
  }

  /** Two item lists hold the same items, each token once: the same token-to-item map. */
  ghost predicate SameItems(a: seq<NvmItem>, b: seq<NvmItem>) {
    && (forall x :: x in a <==> x in b)
    && (forall i, j :: 0 <= i < j < |a| ==> a[i].token != a[j].token)
    && (forall i, j :: 0 <= i < j < |b| ==> b[i].token != b[j].token)
  }

  lemma WinnerTokens(rs: seq<Record>, wrapping: bool)
    ensures forall k :: 0 <= k < |Winners(rs, wrapping)| ==> Winners(rs, wrapping)[k].token == Tokens(rs)[k]
    ensures forall i, j :: 0 <= i < j < |Winners(rs, wrapping)| ==>
      Winners(rs, wrapping)[i].token != Winners(rs, wrapping)[j].token
  {
    forall k | 0 <= k < |Winners(rs, wrapping)| ensures Winners(rs, wrapping)[k].token == Tokens(rs)[k] {
      var j := NewestWins(rs, wrapping, Tokens(rs)[k]);
    }
    TokensDistinct(rs);
  }

  /** In either reading, numbers without ties give the same items whatever order the records come in. */
  lemma WinnersAreOrderFree(u: seq<Record>, v: seq<Record>, wrapping: bool)
    requires SameRecords(u, v) && DistinctNumbers(u) && (wrapping ==> InRange(u))
    ensures SameItems(Winners(u, wrapping), Winners(v, wrapping))
  {
    WinnerTokens(u, wrapping);
    WinnerTokens(v, wrapping);
    SubsetOfWinners(u, v, wrapping);
    assert DistinctNumbers(v);
    SubsetOfWinners(v, u, wrapping);
  }

  lemma SubsetOfWinners(u: seq<Record>, v: seq<Record>, wrapping: bool)
    requires SameRecords(u, v) && DistinctNumbers(u) && (wrapping ==> InRange(u))
    ensures forall x :: x in Winners(u, wrapping) ==> x in Winners(v, wrapping)
  {
    hide Tokens, Newest;
    var a, b := Winners(u, wrapping), Winners(v, wrapping);
    forall k | 0 <= k < |a| ensures a[k] in b {
      var t := Tokens(u)[k];
      WinnerIsOrderFree(u, v, wrapping, t);
      var j :| 0 <= j < |Tokens(v)| && Tokens(v)[j] == t;
      assert b[j] == a[k];
    }
  }

  lemma ConclusionIsOrderFree(u: seq<Record>, v: seq<Record>)
    requires SameRecords(u, v) && DistinctNumbers(v) && InRange(v)
    ensures Conclude(u).Ok? <==> Conclude(v).Ok?
    ensures Conclude(v).Ok? ==> SameItems(Conclude(u).value, Conclude(v).value)
  {
    hide Winners, Ambiguous, Wrapping, SameItems;
    ReadingIsOrderFree(u, v);
    assert DistinctNumbers(u) && InRange(u);
    WinnersAreOrderFree(u, v, Wrapping(v));
  }

  // ---------- sequence numbers ----------

  /** rs carry the true numbers modulo 2^15. */
  predicate Masked(truth: seq<nat>, rs: seq<Record>) {
    |truth| == |rs| && forall k :: 0 <= k < |rs| ==> rs[k].seqNo == truth[k] % (MAX_MASKED + 1)
  }

  predicate SpanAtMost(truth: seq<nat>, span: nat) {
    forall i, j :: 0 <= i < |truth| && 0 <= j < |truth| ==> truth[i] <= truth[j] + span
  }

  /** The analyser's comparison agrees with the true numbers on every pair. */
  predicate OrderRecovered(truth: seq<nat>, rs: seq<Record>)
    requires |truth| == |rs|
  {
    forall i, j :: 0 <= i < |rs| && 0 <= j < |rs| ==>
      (Extended(rs[i].seqNo, Wrapping(rs)) < Extended(rs[j].seqNo, Wrapping(rs)) <==> truth[i] < truth[j])
  }

  /** Every pool whose true numbers span at most this much is read in the right order or refused. */
  ghost predicate SpanIsSafe(span: nat) {
    forall truth: seq<nat>, rs: seq<Record> ::
      Masked(truth, rs) && SpanAtMost(truth, span) ==> Ambiguous(rs) || OrderRecovered(truth, rs)
  }

  lemma OrderWithinWindow(truth: seq<nat>, rs: seq<Record>)
    requires Masked(truth, rs) && SpanAtMost(truth, 8192) && !Ambiguous(rs)
    ensures OrderRecovered(truth, rs)
  {
    forall i, j | 0 <= i < |rs| && 0 <= j < |rs|
      ensures Extended(rs[i].seqNo, Wrapping(rs)) < Extended(rs[j].seqNo, Wrapping(rs)) <==> truth[i] < truth[j]
    {
      PairOrder(rs, truth[i], truth[j], i, j);
    }
  }

  lemma PairOrder(rs: seq<Record>, a: nat, b: nat, i: nat, j: nat)
    requires i < |rs| && j < |rs| && rs[i].seqNo == a % 32768 && rs[j].seqNo == b % 32768
    requires a <= b + 8192 && b <= a + 8192 && !Ambiguous(rs)
    ensures Extended(rs[i].seqNo, Wrapping(rs)) < Extended(rs[j].seqNo, Wrapping(rs)) <==> a < b
  {
    if HasHigh(rs) {
      assert !Middle(rs[i].seqNo) && !Middle(rs[j].seqNo);
    } else {
      assert !High(rs[i].seqNo) && !High(rs[j].seqNo);
    }
  }

  /** The window of 8192 is exact. */
  lemma SafeSpans(span: nat)
    ensures SpanIsSafe(span) <==> span <= 8192
  {
    if span <= 8192 {
      forall truth: seq<nat>, rs: seq<Record> | Masked(truth, rs) && SpanAtMost(truth, span)
        ensures Ambiguous(rs) || OrderRecovered(truth, rs)
      {
        if !Ambiguous(rs) {
          OrderWithinWindow(truth, rs);
        }
      }
    } else {
      var it := NvmItem(0, 0, [], []);
      var truth, rs := [24575, 32768], [Record(24575, it), Record(0, it)];
      assert Masked(truth, rs) && SpanAtMost(truth, span);
      assert !HasHigh(rs);
      assert Extended(rs[0].seqNo, false) > Extended(rs[1].seqNo, false);
      assert !OrderRecovered(truth, rs);
    }
  }

  /** So inside the window the cache keeps the truly latest record of every token. */
  lemma LatestSurvives(truth: seq<nat>, rs: seq<Record>, token: seq<Byte>) returns (k: nat)
    requires Masked(truth, rs) && SpanAtMost(truth, 8192) && !Ambiguous(rs) && token in Tokens(rs)
    ensures k < |rs| && Newest(rs, Wrapping(rs), token) == Some(rs[k]) && rs[k].item.token == token
    ensures forall j :: 0 <= j < |rs| && rs[j].item.token == token ==> truth[j] <= truth[k]
  {
    OrderWithinWindow(truth, rs);
    k := NewestWins(rs, Wrapping(rs), token);
  }
}
