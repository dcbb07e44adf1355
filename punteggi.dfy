/**
  Scoring of the contest, as the controller computes it: the document slots, the
  points a document earns (the rounded mean of the judges' marks), the progress
  average with missing documents counted as zero, the final-vote average with a
  missing vote counted as zero, the 70/30 composite score and the stable
  ranking by descending score. Java doubles become exact reals.
*/
module Punteggi {
  import opened Hackathons
  import opened Voti

  /** `getSlotTotaliDocumenti`: event days times the daily cap, 5 * 3. */
  const SLOT_TOTALI: int := DURATA_HACKATHON_GIORNI * MAX_DOCUMENTI_AL_GIORNO_PER_TEAM

  /** Sum of a list of integers, accumulated from the front as the source's loops do. */
  function Sum(s: seq<int>): int {
    if |s| == 0 then 0 else Sum(s[..|s| - 1]) + s[|s| - 1]
  }

  /** Every element of `s` lies in `[lo, hi]`. */
  predicate AllWithin(s: seq<int>, lo: int, hi: int) {
    forall i | 0 <= i < |s| :: lo <= s[i] <= hi
  }

  /** A sum of `n` values drawn from `[lo, hi]` lies in `[n * lo, n * hi]`. */
  lemma {:induction false} SumWithin(s: seq<int>, lo: int, hi: int)
    requires AllWithin(s, lo, hi)
    ensures |s| * lo <= Sum(s) <= |s| * hi
  {
    if |s| > 0 {
      var p := s[..|s| - 1];
      assert AllWithin(p, lo, hi) by {
        forall i | 0 <= i < |p| ensures lo <= p[i] <= hi {
          assert p[i] == s[i];
        }
      }
      SumWithin(p, lo, hi);
    }
  }

  /** Sum distributes over concatenation. */
  lemma {:induction false} SumAppend(a: seq<int>, b: seq<int>)
    ensures Sum(a + b) == Sum(a) + Sum(b)
  {
    if |b| > 0 {
      var b' := b[..|b| - 1];
      assert (a + b)[..|a + b| - 1] == a + b';
      SumAppend(a, b');
    } else {
      assert a + b == a;
    }
  }

  /** `getDocumentiMancanti`: `max(0, slots - delivered)`. */
  function DocumentiMancanti(consegnati: int): (r: int)
    ensures r >= 0 && r >= SLOT_TOTALI - consegnati
    ensures r == 0 || r == SLOT_TOTALI - consegnati
    ensures consegnati <= SLOT_TOTALI ==> r + consegnati == SLOT_TOTALI
  {
    if SLOT_TOTALI - consegnati > 0 then SLOT_TOTALI - consegnati else 0
  }

  /** `(int) Math.round(somma / (double) n)`: `floor(somma / n + 1/2)`, which for
      integer operands is the Euclidean quotient below. */
  function RoundedMean(somma: int, n: int): (r: int)
    requires n > 0
  {
    (2 * somma + n) / (2 * n)
  }

  /** The rounded mean is the integer nearest to `somma / n`, halves rounding up. */
  lemma RoundedMeanIsNearest(somma: int, n: int)
    requires n > 0
    ensures (2 * RoundedMean(somma, n) - 1) * n <= 2 * somma < (2 * RoundedMean(somma, n) + 1) * n
  {
    var q := RoundedMean(somma, n);
    var m := (2 * somma + n) % (2 * n);
    assert 2 * somma + n == q * (2 * n) + m && 0 <= m < 2 * n;
    assert (2 * q - 1) * n == q * (2 * n) - n;
    assert (2 * q + 1) * n == q * (2 * n) + n;
  }

  /** The rounded mean of marks that all lie in `[lo, hi]` lies in `[lo, hi]` too. */
  lemma RoundedMeanWithin(somma: int, n: int, lo: int, hi: int)
    requires n > 0 && n * lo <= somma <= n * hi
    ensures lo <= RoundedMean(somma, n) <= hi
  {
    var q := RoundedMean(somma, n);
    RoundedMeanIsNearest(somma, n);
    assert (2 * q + 1 - 2 * lo) * n == (2 * q + 1) * n - 2 * (n * lo);
    PositiveFactor(2 * q + 1 - 2 * lo, n);
    assert (2 * hi + 1 - 2 * q) * n == 2 * (n * hi) + n - (2 * q - 1) * n - n;
    PositiveFactor(2 * hi + 1 - 2 * q, n);
  }

  /** A product with a positive factor is positive only if the other factor is. */
  lemma PositiveFactor(c: int, n: int)
    requires n > 0 && c * n > 0
    ensures c > 0
  {
  }

  /** The points a document earns: the rounded mean of one mark per judge. */
  function PuntiDocumento(voti: seq<int>): int
    requires |voti| > 0
  {
    RoundedMean(Sum(voti), |voti|)
  }

  /** The points are the integer nearest the mean mark; with marks in 1..10 they
      are in 1..10 too. */
  lemma PuntiDocumentoFacts(voti: seq<int>)
    requires |voti| > 0
    ensures (2 * PuntiDocumento(voti) - 1) * |voti| <= 2 * Sum(voti) < (2 * PuntiDocumento(voti) + 1) * |voti|
    ensures AllWithin(voti, 1, 10) ==> 1 <= PuntiDocumento(voti) <= 10
  {
    RoundedMeanIsNearest(Sum(voti), |voti|);
    if AllWithin(voti, 1, 10) {
      SumWithin(voti, 1, 10);
      RoundedMeanWithin(Sum(voti), |voti|, 1, 10);
    }
  }

  /** `calcolaMediaProgressiConZeri`: the sum of the document points over all the
      slots, so that a missing document counts as a zero. */
  function MediaProgressi(punti: seq<int>): real {
    if SLOT_TOTALI <= 0 then 0.0 else Sum(punti) as real / SLOT_TOTALI as real
  }

  /** With at most one point value per slot and each in 0..10, progress is in [0, 10]. */
  lemma MediaProgressiWithin(punti: seq<int>)
    requires AllWithin(punti, 0, 10) && |punti| <= SLOT_TOTALI
    ensures 0.0 <= MediaProgressi(punti) <= 10.0
  {
    SumWithin(punti, 0, 10);
  }

  /** Each extra document point raises progress by exactly one fifteenth of it. */
  lemma MediaProgressiAppend(punti: seq<int>, p: int)
    ensures MediaProgressi(punti + [p]) == MediaProgressi(punti) + p as real / SLOT_TOTALI as real
  {
    SumAppend(punti, [p]);
    assert Sum([p]) == Sum([p][..0]) + p;
  }

  /** `mediaVotiTeamConZeri`: the sum of the team's final marks over the number of
      judges (not of marks), so a missing vote counts as zero; 0 without judges. */
  function MediaVoti(voti: seq<int>, nGiudici: int): real {
    if nGiudici <= 0 then 0.0 else Sum(voti) as real / nGiudici as real
  }

  /** With at most one mark per judge, each in 0..10, the average is in [0, 10]. */
  lemma MediaVotiWithin(voti: seq<int>, nGiudici: int)
    requires AllWithin(voti, 0, 10) && |voti| <= nGiudici
    ensures 0.0 <= MediaVoti(voti, nGiudici) <= 10.0
  {
    SumWithin(voti, 0, 10);
    if nGiudici > 0 {
      assert Sum(voti) <= 10 * nGiudici;
    }
  }

  /** `scoreTotaleTeam`: 70% final-vote average plus 30% progress. */
  function ScoreTotale(mediaVoti: real, mediaProgressi: real): real {
    0.7 * mediaVoti + 0.3 * mediaProgressi
  }

  /** The composite score is a weighted mean: it stays within the range of its two
      parts and grows with each of them. */
  lemma ScoreTotaleWithin(v: real, p: real)
    ensures (if v <= p then v else p) <= ScoreTotale(v, p) <= (if v <= p then p else v)
    ensures 0.0 <= v <= 10.0 && 0.0 <= p <= 10.0 ==> 0.0 <= ScoreTotale(v, p) <= 10.0
  {
  }

  lemma ScoreTotaleMonotone(v: real, p: real, v': real, p': real)
    requires v <= v' && p <= p'
    ensures ScoreTotale(v, p) <= ScoreTotale(v', p')
  {
  }

  /** The final marks of the team with the given id, in list order (`raccogliVotiTeam`;
      a vote's team is compared by id). */
  function VotiDelTeam(voti: seq<Voto>, teamId: int): (r: seq<int>)
    ensures |r| <= |voti|
    ensures AllWithin(r, 0, 10)
  {
    if |voti| == 0 then []
    else
      var prefix := VotiDelTeam(voti[..|voti| - 1], teamId);
      var v := voti[|voti| - 1];
      if v.team.id == teamId then prefix + [v.punteggio as int] else prefix
  }

  /** The document points recorded for a team id (`getOrDefault(team, emptyList())`). */
  function PuntiDelTeam(punti: map<int, seq<int>>, teamId: int): seq<int> {
    if teamId in punti then punti[teamId] else []
  }

  /** The score of one team, from the controller's votes, points and judge count. */
  function ScoreTeam(voti: seq<Voto>, punti: map<int, seq<int>>, nGiudici: int, teamId: int): real {
    ScoreTotale(MediaVoti(VotiDelTeam(voti, teamId), nGiudici), MediaProgressi(PuntiDelTeam(punti, teamId)))
  }

  // ---------------------------------------------------------------------------
  // The ranking: `List.sort` with `Double.compare(score(b), score(a))`, a stable
  // sort by descending score, written as an insertion sort.
  // ---------------------------------------------------------------------------

  /** Sorted by non-increasing key. */
  ghost predicate SortedDesc<T>(s: seq<T>, key: T -> real) {
    forall i, j | 0 <= i < j < |s| :: key(s[i]) >= key(s[j])
  }

  /** The elements of `s` whose key is `v`, in order: comparing these lists before
      and after sorting is what stability means. */
  function WithKey<T>(s: seq<T>, key: T -> real, v: real): seq<T> {
    if |s| == 0 then [] else (if key(s[0]) == v then [s[0]] else []) + WithKey(s[1..], key, v)
  }

  /** Insert `x` after every element whose key is at least its own. */
  function Insert<T>(s: seq<T>, key: T -> real, x: T): seq<T> {
    if |s| == 0 then [x]
    else if key(s[0]) >= key(x) then [s[0]] + Insert(s[1..], key, x)
    else [x] + s
  }

  /** The ranking: each element in input order is inserted into the ranked prefix. */
  function Classifica<T>(s: seq<T>, key: T -> real): seq<T> {
    if |s| == 0 then [] else Insert(Classifica(s[..|s| - 1], key), key, s[|s| - 1])
  }

  lemma {:induction false} WithKeyAppend<T>(a: seq<T>, b: seq<T>, key: T -> real, v: real)
    ensures WithKey(a + b, key, v) == WithKey(a, key, v) + WithKey(b, key, v)
  {
    if |a| > 0 {
      assert (a + b)[1..] == a[1..] + b;
      WithKeyAppend(a[1..], b, key, v);
    } else {
      assert a + b == b;
    }
  }

  /** A sorted list whose first key is below `v` has no element of key `v`. */
  lemma {:induction false} WithKeyBelow<T>(s: seq<T>, key: T -> real, v: real)
    requires SortedDesc(s, key)
    requires |s| > 0 ==> key(s[0]) < v
    ensures WithKey(s, key, v) == []
  {
    if |s| > 0 {
      SortedDescTail(s, key);
      WithKeyBelow(s[1..], key, v);
    }
  }

  /** The tail of a list sorted by descending key is sorted too. */
  lemma SortedDescTail<T>(s: seq<T>, key: T -> real)
    requires SortedDesc(s, key) && |s| > 0
    ensures SortedDesc(s[1..], key)
    ensures forall k | 0 <= k < |s[1..]| :: key(s[0]) >= key(s[1..][k])
  {
    var t := s[1..];
    forall i, j | 0 <= i < j < |t| ensures key(t[i]) >= key(t[j]) {
      assert t[i] == s[i + 1] && t[j] == s[j + 1];
    }
    forall k | 0 <= k < |t| ensures key(s[0]) >= key(t[k]) {
      assert t[k] == s[k + 1];
    }
  }

  /** Inserting adds exactly `x` to the elements. */
  lemma {:induction false} InsertPermutes<T>(s: seq<T>, key: T -> real, x: T)
    ensures multiset(Insert(s, key, x)) == multiset(s) + multiset{x}
  {
    if |s| > 0 && key(s[0]) >= key(x) {
      InsertPermutes(s[1..], key, x);
      assert s == [s[0]] + s[1..];
    }
  }

  /** Every key in the result of an insertion is the key of `x` or a key of `s`. */
  lemma InsertKeysBelow<T>(s: seq<T>, key: T -> real, x: T, bound: real)
    requires key(x) <= bound
    requires forall k | 0 <= k < |s| :: key(s[k]) <= bound
    ensures forall k | 0 <= k < |Insert(s, key, x)| :: key(Insert(s, key, x)[k]) <= bound
  {
    var r := Insert(s, key, x);
    InsertPermutes(s, key, x);
    forall k | 0 <= k < |r| ensures key(r[k]) <= bound {
      assert r[k] in multiset(r);
      if r[k] != x {
        assert r[k] in multiset(s);
        var m :| 0 <= m < |s| && s[m] == r[k];
      }
    }
  }

  /** Inserting into a list sorted by descending key keeps it sorted. */
  lemma {:induction false} InsertSorted<T>(s: seq<T>, key: T -> real, x: T)
    requires SortedDesc(s, key)
    ensures SortedDesc(Insert(s, key, x), key)
  {
    var r := Insert(s, key, x);
    if |s| == 0 {
    } else if key(s[0]) >= key(x) {
      var t := s[1..];
      SortedDescTail(s, key);
      InsertSorted(t, key, x);
      var rt := Insert(t, key, x);
      InsertKeysBelow(t, key, x, key(s[0]));
      assert r == [s[0]] + rt;
      forall i, j | 0 <= i < j < |r| ensures key(r[i]) >= key(r[j]) {
        assert r[j] == rt[j - 1];
        if i > 0 {
          assert r[i] == rt[i - 1];
        }
      }
    } else {
      assert r == [x] + s;
      forall i, j | 0 <= i < j < |r| ensures key(r[i]) >= key(r[j]) {
        assert r[j] == s[j - 1];
        if i > 0 {
          assert r[i] == s[i - 1];
        } else {
          assert key(s[0]) >= key(s[j - 1]);
        }
      }
    }
  }

  /** Inserting `x` into a sorted list puts it after every element of its own key. */
  lemma {:induction false} InsertWithKey<T>(s: seq<T>, key: T -> real, x: T, v: real)
    requires SortedDesc(s, key)
    ensures WithKey(Insert(s, key, x), key, v) == WithKey(s, key, v) + WithKey([x], key, v)
  {
    var r := Insert(s, key, x);
    assert [x][1..] == [];
    if |s| == 0 {
    } else if key(s[0]) >= key(x) {
      SortedDescTail(s, key);
      InsertWithKey(s[1..], key, x, v);
      assert r[1..] == Insert(s[1..], key, x);
    } else {
      assert r[1..] == s;
      if key(x) == v {
        WithKeyBelow(s, key, v);
      }
    }
  }

  /** The ranking is sorted by descending score, is a permutation of the input,
      and keeps the input order among teams with equal scores (a stable sort). */
  lemma {:induction false} ClassificaIsStableSort<T>(s: seq<T>, key: T -> real)
    ensures SortedDesc(Classifica(s, key), key)
    ensures multiset(Classifica(s, key)) == multiset(s)
    ensures forall v :: WithKey(Classifica(s, key), key, v) == WithKey(s, key, v)
  {
    if |s| > 0 {
      var p := s[..|s| - 1];
      var x := s[|s| - 1];
      ClassificaIsStableSort(p, key);
      InsertSorted(Classifica(p, key), key, x);
      InsertPermutes(Classifica(p, key), key, x);
      assert s == p + [x];
      forall v ensures WithKey(Classifica(s, key), key, v) == WithKey(s, key, v) {
        InsertWithKey(Classifica(p, key), key, x, v);
        WithKeyAppend(p, [x], key, v);
      }
    }
  }
}
