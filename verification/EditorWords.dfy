/** Words, typos and the cyclic order in which the editor hops over them. */
module EditorWords {

  predicate IsWordChar(c: char) {
    'a' <= c <= 'z' || 'A' <= c <= 'Z'
  }

  // ---------- maximal words ----------

  predicate WordStart(text: string, i: nat) {
    i < |text| && IsWordChar(text[i]) && (i == 0 || !IsWordChar(text[i - 1]))
  }

  function WordEnd(text: string, i: nat): (e: nat)
    requires i <= |text|
    ensures i <= e <= |text| && (e < |text| ==> !IsWordChar(text[e]))
    ensures forall k :: i <= k < e ==> IsWordChar(text[k])
    decreases |text| - i
  {
    if i < |text| && IsWordChar(text[i]) then WordEnd(text, i + 1) else i
  }

  // i starts a maximal word that is a typo.
  predicate TypoStart(text: string, typo: string -> bool, i: nat) {
    WordStart(text, i) && typo(text[i..WordEnd(text, i)])
  }

  // ---------- the cyclic order ----------

  // The typo starts from position i on, in order.
  function TyposFrom(text: string, typo: string -> bool, i: nat): (ts: seq<nat>)
    requires i <= |text|
    ensures forall k :: 0 <= k < |ts| ==> i <= ts[k] < |text| && TypoStart(text, typo, ts[k])
    ensures forall j, k :: 0 <= j < k < |ts| ==> ts[j] < ts[k]
    ensures forall s :: i <= s < |text| && TypoStart(text, typo, s) ==> s in ts
    decreases |text| - i
  {
    if i == |text| then []
    else (if TypoStart(text, typo, i) then [i] else []) + TyposFrom(text, typo, i + 1)
  }

  function Typos(text: string, typo: string -> bool): seq<nat> {
    TyposFrom(text, typo, 0)
  }

  // No typo starts in [lo, hi).
  predicate NoTypo(text: string, typo: string -> bool, lo: nat, hi: nat) {
    forall s :: lo <= s < hi ==> !TypoStart(text, typo, s)
  }

  // Where a hop from cur goes: the first typo after the cursor, or else the first of all; None if
  // there is no typo.
  ghost predicate HopsTo(text: string, typo: string -> bool, cur: nat, target: nat) {
    && TypoStart(text, typo, target)
    && (if target > cur then NoTypo(text, typo, cur + 1, target)
        else NoTypo(text, typo, cur + 1, |text|) && NoTypo(text, typo, 0, target))
  }

  // A stretch without typos goes on over a word that is none, and over anything that is no letter.
  lemma PassWord(text: string, typo: string -> bool, lo: nat, start: nat)
    requires NoTypo(text, typo, lo, start) && WordStart(text, start) && !typo(text[start..WordEnd(text, start)])
    ensures NoTypo(text, typo, lo, WordEnd(text, start))
  {
    forall s | start < s < WordEnd(text, start) ensures !WordStart(text, s) {
      assert IsWordChar(text[s - 1]);
    }
  }

  // The word the editor looks at is the stretch of the text it stands for.
  lemma SliceOfPrefix(s: string, n: nat, i: nat, j: nat)
    requires i <= j <= n <= |s|
    ensures s[..n][i..j] == s[i..j]
  {
  }

  lemma NothingYet(text: string, typo: string -> bool, lo: nat)
    ensures NoTypo(text, typo, lo, lo)
  {
  }

  lemma TypoHere(text: string, typo: string -> bool, i: nat)
    requires WordStart(text, i) && typo(text[i..WordEnd(text, i)])
    ensures TypoStart(text, typo, i)
  {
  }

  lemma PassGap(text: string, typo: string -> bool, lo: nat, i: nat)
    requires NoTypo(text, typo, lo, i) && i < |text| && !IsWordChar(text[i])
    ensures NoTypo(text, typo, lo, i + 1)
  {
  }

  // A hop stays where it is if and only if there is no typo but the one under the cursor.
  lemma HopStays(text: string, typo: string -> bool, cur: nat, target: nat)
    requires HopsTo(text, typo, cur, target)
    ensures target == cur <==> forall t: nat :: TypoStart(text, typo, t) ==> t == cur
  {
    if target == cur {
      forall t: nat | TypoStart(text, typo, t) ensures t == cur {
        assert t < |text|;
        assert !(cur + 1 <= t < |text|) && !(0 <= t < cur);
      }
    }
  }

  // With a sole typo under the cursor the hop finds it again and does not move.
  lemma SoleTypo()
    ensures HopsTo("zz", _ => true, 0, 0)
  {
    assert WordStart("zz", 0) && !WordStart("zz", 1);
  }

  // There is at most one place to hop to.
  lemma HopUnique(text: string, typo: string -> bool, cur: nat, a: nat, b: nat)
    requires HopsTo(text, typo, cur, a) && HopsTo(text, typo, cur, b)
    ensures a == b
  {
  }

  // The position k places after place j in a cycle of n.
  function Rotate(j: nat, k: nat, n: nat): (r: nat)
    requires j < n && k <= n
    ensures r < n
  {
    if j + k < n then j + k else j + k - n
  }

  // From the j-th typo the hop goes to the next one in cyclic order.
  lemma HopIsNext(text: string, typo: string -> bool, j: nat, target: nat)
    requires var ts := Typos(text, typo); j < |ts| && HopsTo(text, typo, ts[j], target)
    ensures var ts := Typos(text, typo); target == ts[Rotate(j, 1, |ts|)]
  {
    hide TypoStart, TyposFrom;
    var ts := Typos(text, typo);
    if j + 1 < |ts| {
      NothingBetween(text, typo, ts[j] + 1, ts[j + 1]);
      HopUnique(text, typo, ts[j], target, ts[j + 1]);
    } else {
      NothingBetween(text, typo, ts[j] + 1, |text|);
      NothingBetween(text, typo, 0, ts[0]);
      HopUnique(text, typo, ts[j], target, ts[0]);
    }
  }

  // A stretch that meets none of the listed typos has none.
  lemma NothingBetween(text: string, typo: string -> bool, lo: nat, hi: nat)
    requires hi <= |text|
    requires forall k :: 0 <= k < |Typos(text, typo)| ==> !(lo <= Typos(text, typo)[k] < hi)
    ensures NoTypo(text, typo, lo, hi)
  {
    hide TypoStart, TyposFrom;
    var ts := Typos(text, typo);
    forall s | lo <= s < hi ensures !TypoStart(text, typo, s) {
      assert forall k :: 0 <= k < |ts| ==> ts[k] != s;
      assert s !in ts;
    }
  }

  lemma TypoListed(text: string, typo: string -> bool, t: nat)
    requires TypoStart(text, typo, t)
    ensures t in Typos(text, typo)
  {
  }

  // A sequence of hops: each entry is where the hop from the previous one goes.
  ghost predicate Tour(text: string, typo: string -> bool, stops: seq<nat>) {
    forall i, k :: 0 <= i && k == i + 1 && k < |stops| ==> HopsTo(text, typo, stops[i], stops[k])
  }

  lemma {:induction false} TourFollows(text: string, typo: string -> bool, j: nat, stops: seq<nat>, k: nat)
    requires var ts := Typos(text, typo); j < |ts| && k <= |ts| && |stops| > k && stops[0] == ts[j]
    requires Tour(text, typo, stops)
    ensures var ts := Typos(text, typo); stops[k] == ts[Rotate(j, k, |ts|)]
  {
    hide Typos, HopsTo;
    var ts := Typos(text, typo);
    if k > 0 {
      TourFollows(text, typo, j, stops, k - 1);
      var i := Rotate(j, k - 1, |ts|);
      assert HopsTo(text, typo, stops[k - 1], stops[k]);
      HopIsNext(text, typo, i, stops[k]);
    }
  }

  // Starting on one of n typos, n hops visit every typo exactly once and come back.
  lemma TourVisitsAll(text: string, typo: string -> bool, j: nat, stops: seq<nat>)
    requires var ts := Typos(text, typo); j < |ts| && |stops| == |ts| + 1 && stops[0] == ts[j]
    requires Tour(text, typo, stops)
    ensures var n := |Typos(text, typo)|;
      && stops[n] == stops[0]
      && (forall a, b :: 0 <= a < b < n ==> stops[a] != stops[b])
      && (forall t :: TypoStart(text, typo, t) ==> t in stops[..n])
  {
    hide TyposFrom, TypoStart, HopsTo;
    var ts := Typos(text, typo);
    var n := |ts|;
    forall k | 0 <= k <= n ensures stops[k] == ts[Rotate(j, k, n)] {
      TourFollows(text, typo, j, stops, k);
    }
    forall a, b | 0 <= a < b < n ensures stops[a] != stops[b] {
      assert Rotate(j, a, n) != Rotate(j, b, n);
    }
    forall t | TypoStart(text, typo, t) ensures t in stops[..n] {
      TypoListed(text, typo, t);
      var m: nat :| m < n && ts[m] == t;
      var k := if m >= j then m - j else m + n - j;
      assert Rotate(j, k, n) == m;
      assert stops[..n][k] == t;
    }
  }
}
