/** `findConnections`: every pair of nodes i < j is scored by shared tags, an
    equal day and shared long title words, and the pairs that reach the
    threshold become links, in the order the nested loops visit them.
    Strengths are kept in exact hundredths: 0.3 is 30, 0.2 is 20, 0.15 is 15
    and the cap 1 is 100. */
module Linker {
  import opened Text
  import opened Nodes

  const TagWeight: nat := 30
  const DateWeight: nat := 20
  const TitleWordWeight: nat := 15
  const LinkThreshold: nat := 20
  const MaxStrength: nat := 100

  /** A link of the memory graph; strength in hundredths. */
  datatype Link = Link(source: string, target: string, strength: nat)

  /* ---------------- Title words ---------------- */

  /** Where the word that ends at position e of s starts: the characters from
      b up to e hold no white space, and the one before b is white space. */
  function WordStart(s: string, e: nat): (b: nat)
    requires e <= |s|
    ensures b <= e
    decreases e
  {
    if e == 0 || IsSpace(s[e - 1]) then e else WordStart(s, e - 1)
  }

  /** No white space lies between the start of a word and its end. */
  lemma {:induction false} WordStartSpan(s: string, e: nat)
    requires e <= |s|
    ensures forall k :: WordStart(s, e) <= k < e ==> !IsSpace(s[k])
    ensures WordStart(s, e) > 0 ==> IsSpace(s[WordStart(s, e) - 1])
    decreases e
  {
    if e > 0 && !IsSpace(s[e - 1]) {
      WordStartSpan(s, e - 1);
    }
  }

  /** Where the white-space run that ends at position e of s starts. */
  function GapStart(s: string, e: nat): (c: nat)
    requires e <= |s|
    ensures c <= e
    decreases e
  {
    if e == 0 || !IsSpace(s[e - 1]) then e else GapStart(s, e - 1)
  }

  /** Only white space lies between the start of a gap and its end. */
  lemma {:induction false} GapStartSpan(s: string, e: nat)
    requires e <= |s|
    ensures forall k :: GapStart(s, e) <= k < e ==> IsSpace(s[k])
    ensures GapStart(s, e) > 0 ==> !IsSpace(s[GapStart(s, e) - 1])
    decreases e
  {
    if e > 0 && IsSpace(s[e - 1]) {
      GapStartSpan(s, e - 1);
    }
  }

  /** `s[..e].split(/\s+/)`, built from its last piece backwards: the word
      that ends at e starts at b, and the white space before it at c. */
  function TokensTo(s: string, e: nat): (ws: seq<string>)
    requires e <= |s|
    ensures |ws| >= 1
    decreases e
  {
    var b := WordStart(s, e);
    if b == 0 then [s[..e]]
    else TokensTo(s, GapStart(s, b - 1)) + [s[b..e]]
  }

  /** `s.split(/\s+/)`: the pieces between maximal runs of white space; a
      leading or trailing run leaves an empty first or last piece. */
  function Tokens(s: string): (ws: seq<string>)
    ensures |ws| >= 1
  {
    TokensTo(s, |s|)
  }

  predicate NoSpace(w: string) {
    forall k :: 0 <= k < |w| ==> !IsSpace(w[k])
  }

  /** A text made only of white space. */
  predicate AllSpace(g: string) {
    forall k :: 0 <= k < |g| ==> IsSpace(g[k])
  }

  /** No piece of a split contains white space. */
  lemma TokensNoSpace(s: string)
    ensures forall w :: w in Tokens(s) ==> NoSpace(w)
  {
    TokensToNoSpace(s, |s|);
  }

  lemma {:induction false} TokensToNoSpace(s: string, e: nat)
    requires e <= |s|
    ensures forall w :: w in TokensTo(s, e) ==> NoSpace(w)
    decreases e
  {
    var b := WordStart(s, e);
    var last := s[b..e];
    WordStartSpan(s, e);
    forall k | 0 <= k < |last| ensures !IsSpace(last[k]) {
      assert last[k] == s[b + k];
    }
    if b > 0 {
      TokensToNoSpace(s, GapStart(s, b - 1));
    } else {
      assert s[..e] == last;
    }
  }

  /** Pieces with one gap between each two of them, put back together. */
  function Weave(ts: seq<string>, gs: seq<string>): string
    requires |ts| == |gs| + 1
  {
    if gs == [] then ts[0]
    else Weave(ts[..|ts| - 1], gs[..|gs| - 1]) + gs[|gs| - 1] + ts[|ts| - 1]
  }

  /** s is the pieces ts with the gaps gs between them: every gap a non-empty
      run of white space, and no piece but the first and the last empty. */
  predicate SplitsAt(s: string, ts: seq<string>, gs: seq<string>) {
    && |ts| == |gs| + 1
    && (forall m :: 0 <= m < |gs| ==> gs[m] != [] && AllSpace(gs[m]))
    && (forall m :: 0 < m < |ts| - 1 ==> ts[m] != [])
    && Weave(ts, gs) == s
  }

  /** `split(/\s+/)` cuts s at its maximal white-space runs. With
      TokensNoSpace, the non-empty pieces are, in order, the maximal runs of
      non-white-space characters of s. */
  lemma TokensSplitAtRuns(s: string)
    ensures exists gs :: SplitsAt(s, Tokens(s), gs)
  {
    TokensToSplitAtRuns(s, |s|);
    var gs :| SplitsAt(s[..|s|], TokensTo(s, |s|), gs);
    assert s[..|s|] == s;
    assert SplitsAt(s, Tokens(s), gs);
  }

  lemma {:induction false} TokensToSplitAtRuns(s: string, e: nat)
    requires e <= |s|
    ensures exists gs :: SplitsAt(s[..e], TokensTo(s, e), gs)
    decreases e
  {
    var b := WordStart(s, e);
    if b == 0 {
      assert SplitsAt(s[..e], TokensTo(s, e), []);
    } else {
      var c := GapStart(s, b - 1);
      TokensToSplitAtRuns(s, c);
      var gs :| SplitsAt(s[..c], TokensTo(s, c), gs);
      var g := s[c..b];
      GapBeforeWord(s, e);
      if c > 0 {
        TokensToLast(s, c);
      }
      SplitsAtStep(s[..c], TokensTo(s, c), gs, g, s[b..e]);
      Slices3(s, c, b, e);
      TokensToStep(s, e);
      assert SplitsAt(s[..e], TokensTo(s, e), gs + [g]);
    }
  }

  /** White space, and at least one character of it, separates a word from
      the text before it; that text, unless empty, ends in a word. */
  lemma GapBeforeWord(s: string, e: nat)
    requires e <= |s| && WordStart(s, e) > 0
    ensures var b := WordStart(s, e);
            var c := GapStart(s, b - 1);
            && s[c..b] != [] && AllSpace(s[c..b])
            && (c > 0 ==> WordStart(s, c) < c)
  {
    var b := WordStart(s, e);
    var c := GapStart(s, b - 1);
    var g := s[c..b];
    WordStartSpan(s, e);
    GapStartSpan(s, b - 1);
    forall k | 0 <= k < |g| ensures IsSpace(g[k]) {
      assert g[k] == s[c + k];
    }
  }

  /** The defining step of TokensTo when white space precedes the last word. */
  lemma TokensToStep(s: string, e: nat)
    requires e <= |s| && WordStart(s, e) > 0
    ensures TokensTo(s, e) == TokensTo(s, GapStart(s, WordStart(s, e) - 1)) + [s[WordStart(s, e)..e]]
  {
  }

  /** Three adjacent slices make up the prefix they cover. */
  lemma Slices3<T>(s: seq<T>, c: nat, b: nat, e: nat)
    requires c <= b <= e <= |s|
    ensures s[..c] + s[c..b] + s[b..e] == s[..e]
  {
  }

  /** The last piece of a split is the word that ends the text. */
  lemma TokensToLast(s: string, e: nat)
    requires e <= |s|
    ensures TokensTo(s, e)[|TokensTo(s, e)| - 1] == s[WordStart(s, e)..e]
  {
    if WordStart(s, e) == 0 {
      assert s[..e] == s[0..e];
    }
  }

  /** A non-empty white-space gap and one more piece extend a cut, provided
      the piece before the gap is not an empty inner piece. */
  lemma SplitsAtStep(pre: string, ts: seq<string>, gs: seq<string>, g: string, word: string)
    requires SplitsAt(pre, ts, gs)
    requires pre != [] ==> ts[|ts| - 1] != []
    requires pre == [] ==> |ts| == 1
    requires g != [] && AllSpace(g)
    ensures SplitsAt(pre + g + word, ts + [word], gs + [g])
  {
    var ts', gs' := ts + [word], gs + [g];
    assert ts'[..|ts|] == ts && gs'[..|gs|] == gs;
    forall m | 0 < m < |ts'| - 1 ensures ts'[m] != [] {
      assert ts'[m] == ts[m];
    }
  }

  /** Words joined by single spaces split back into the same words. */
  lemma {:induction false} TokensOfJoin(ws: seq<string>)
    requires ws != []
    requires forall w :: w in ws ==> w != [] && NoSpace(w)
    ensures Tokens(Join(ws, ' ')) == ws
    decreases |ws|
  {
    if |ws| == 1 {
      var w := ws[0];
      assert w in ws;
      WordStartOfWord(w, 0, |w|);
      assert w[..|w|] == w;
    } else {
      var init := ws[..|ws| - 1];
      var w := ws[|ws| - 1];
      assert w in ws;
      assert forall x :: x in init ==> x in ws;
      TokensOfJoin(init);
      var j := Join(init, ' ');
      JoinEndsInWord(init);
      TokensAfterSpace(j, w);
      FrontAndLast(ws);
    }
  }

  /** The join of non-empty words ends in a non-space character. */
  lemma JoinEndsInWord(ws: seq<string>)
    requires ws != []
    requires forall w :: w in ws ==> w != [] && NoSpace(w)
    ensures Join(ws, ' ') != [] && !IsSpace(Join(ws, ' ')[|Join(ws, ' ')| - 1])
  {
    var w := ws[|ws| - 1];
    assert w in ws;
    if |ws| > 1 {
      var s := Join(ws, ' ');
      assert s == Join(ws[..|ws| - 1], ' ') + [' '] + w;
      assert s[|s| - 1] == w[|w| - 1];
    }
  }

  /** A run of non-space characters preceded by white space, or by nothing,
      is the word that ends where it ends. */
  lemma {:induction false} WordStartOfWord(s: string, b: nat, e: nat)
    requires b <= e <= |s|
    requires forall k :: b <= k < e ==> !IsSpace(s[k])
    requires b > 0 ==> IsSpace(s[b - 1])
    ensures WordStart(s, e) == b
    decreases e
  {
    if e > b {
      WordStartOfWord(s, b, e - 1);
    }
  }

  /** Splitting looks only at the text before the end position. */
  lemma {:induction false} TokensToAgree(s: string, t: string, e: nat)
    requires e <= |s| && e <= |t|
    requires forall k :: 0 <= k < e ==> s[k] == t[k]
    ensures TokensTo(s, e) == TokensTo(t, e)
    decreases e
  {
    WordStartAgree(s, t, e);
    var b := WordStart(s, e);
    if b > 0 {
      GapStartAgree(s, t, b - 1);
      TokensToAgree(s, t, GapStart(s, b - 1));
      assert s[b..e] == t[b..e];
    } else {
      assert s[..e] == t[..e];
    }
  }

  lemma {:induction false} WordStartAgree(s: string, t: string, e: nat)
    requires e <= |s| && e <= |t|
    requires forall k :: 0 <= k < e ==> s[k] == t[k]
    ensures WordStart(s, e) == WordStart(t, e)
    decreases e
  {
    if e > 0 {
      WordStartAgree(s, t, e - 1);
    }
  }

  lemma {:induction false} GapStartAgree(s: string, t: string, e: nat)
    requires e <= |s| && e <= |t|
    requires forall k :: 0 <= k < e ==> s[k] == t[k]
    ensures GapStart(s, e) == GapStart(t, e)
    decreases e
  {
    if e > 0 {
      GapStartAgree(s, t, e - 1);
    }
  }

  /** One more word after a space adds one more piece. */
  lemma TokensAfterSpace(j: string, w: string)
    requires j != [] && !IsSpace(j[|j| - 1])
    requires w != [] && NoSpace(w)
    ensures Tokens(j + [' '] + w) == Tokens(j) + [w]
  {
    var s := j + [' '] + w;
    var b := |j| + 1;
    forall k | b <= k < |s| ensures !IsSpace(s[k]) {
      assert s[k] == w[k - b];
    }
    assert s[b - 1] == ' ';
    WordStartOfWord(s, b, |s|);
    assert !IsSpace(s[|j| - 1]) by {
      assert s[|j| - 1] == j[|j| - 1];
    }
    assert GapStart(s, b - 1) == |j|;
    assert s[b..|s|] == w;
    assert TokensTo(s, |s|) == TokensTo(s, |j|) + [w];
    forall k | 0 <= k < |j| ensures s[k] == j[k] {
    }
    TokensToAgree(s, j, |j|);
  }

  /* ---------------- Scoring one pair ---------------- */

  /** `a.filter(t => b.includes(t))`: the elements of a that b also holds, in
      a's order, repeats included. */
  function SharedTags(a: seq<string>, b: seq<string>): (r: seq<string>)
    ensures |r| <= |a|
  {
    if a == [] then []
    else
      var front := SharedTags(a[..|a| - 1], b);
      var t := a[|a| - 1];
      if t in b then front + [t] else front
  }

  /** A tag is shared exactly when both lists hold it; nothing is shared
      exactly when the lists have no tag in common. */
  lemma {:induction false} SharedTagsMembers(a: seq<string>, b: seq<string>)
    ensures forall t :: t in SharedTags(a, b) <==> t in a && t in b
    ensures SharedTags(a, b) == [] <==> forall t :: t in a ==> t !in b
    decreases |a|
  {
    if a != [] {
      SharedTagsMembers(a[..|a| - 1], b);
      FrontAndLast(a);
    }
    EmptyIffNoMember(SharedTags(a, b));
  }

  /** The set of tags two tag lists have in common. */
  function CommonTags(a: seq<string>, b: seq<string>): set<string>
  {
    set t | t in a && t in b
  }

  /** Counting the shared tags counts each common tag at least once, and
      exactly once when a has no repeats (tags from `extractTags` never do). */
  lemma {:induction false} SharedTagsCount(a: seq<string>, b: seq<string>)
    ensures |SharedTags(a, b)| >= |CommonTags(a, b)|
    ensures NoDup(a) ==> |SharedTags(a, b)| == |CommonTags(a, b)|
    decreases |a|
  {
    if a != [] {
      var front := a[..|a| - 1];
      var t := a[|a| - 1];
      SharedTagsCount(front, b);
      CommonTagsSnoc(a, b);
      if NoDup(a) {
        NoDupFront(a);
      }
    }
  }

  /** The common tags of a are those of its front, plus its last tag if b has it. */
  lemma CommonTagsSnoc(a: seq<string>, b: seq<string>)
    requires a != []
    ensures CommonTags(a, b) == CommonTags(a[..|a| - 1], b) + (if a[|a| - 1] in b then {a[|a| - 1]} else {})
  {
    FrontAndLast(a);
  }

  /** Without repeats, the front has none either and lacks the last element. */
  lemma NoDupFront<T>(a: seq<T>)
    requires a != [] && NoDup(a)
    ensures NoDup(a[..|a| - 1]) && a[|a| - 1] !in a[..|a| - 1]
  {
    var front := a[..|a| - 1];
    forall k | 0 <= k < |front|
      ensures front[k] != a[|a| - 1]
    {
      assert a[k] == front[k];
    }
  }

  /** `wordsA.filter(w => w.length > 3 && wordsB.includes(w))`. */
  function SharedWords(wa: seq<string>, wb: seq<string>): (r: seq<string>)
    ensures |r| <= |wa|
  {
    if wa == [] then []
    else
      var front := SharedWords(wa[..|wa| - 1], wb);
      var w := wa[|wa| - 1];
      if |w| > 3 && w in wb then front + [w] else front
  }

  /** A word is shared exactly when it is longer than three characters and
      both lists hold it. */
  lemma {:induction false} SharedWordsMembers(wa: seq<string>, wb: seq<string>)
    ensures forall w :: w in SharedWords(wa, wb) <==> w in wa && |w| > 3 && w in wb
    ensures SharedWords(wa, wb) == [] <==> forall w :: w in wa && |w| > 3 ==> w !in wb
    decreases |wa|
  {
    if wa != [] {
      SharedWordsMembers(wa[..|wa| - 1], wb);
      FrontAndLast(wa);
    }
    EmptyIffNoMember(SharedWords(wa, wb));
  }

  /** The positions of wa whose word counts as shared: longer than three
      characters and held by wb. */
  function SharedWordPositions(wa: seq<string>, wb: seq<string>): set<nat>
  {
    set k: nat | k < |wa| && |wa[k]| > 3 && wa[k] in wb
  }

  /** The filter keeps one word per shared position of wa, repeats included. */
  lemma {:induction false} SharedWordsCount(wa: seq<string>, wb: seq<string>)
    ensures |SharedWords(wa, wb)| == |SharedWordPositions(wa, wb)|
    decreases |wa|
  {
    if wa != [] {
      var front := wa[..|wa| - 1];
      var w := wa[|wa| - 1];
      SharedWordsCount(front, wb);
      var before := SharedWordPositions(front, wb);
      var added: set<nat> := if |w| > 3 && w in wb then {|wa| - 1} else {};
      forall k: nat
        ensures k in SharedWordPositions(wa, wb) <==> k in before + added
      {
        if k < |front| {
          assert wa[k] == front[k];
        }
      }
      assert SharedWordPositions(wa, wb) == before + added;
      assert |wa| - 1 !in before;
    }
  }

  lemma EmptyIffNoMember<T>(r: seq<T>)
    ensures r == [] <==> forall x :: x !in r
  {
    if r != [] {
      assert r[0] in r;
    }
  }

  /** The shared long title words, after lower-casing both titles. */
  function TitleWords(a: MemoryNode, b: MemoryNode): seq<string>
  {
    SharedWords(Tokens(Lower(a.title)), Tokens(Lower(b.title)))
  }

  /** `nodeA.date && nodeA.date === nodeB.date`: a defined, non-empty date
      that b has too. */
  predicate SameDay(a: MemoryNode, b: MemoryNode) {
    a.date.Some? && a.date.value != [] && b.date == a.date
  }

  /** The strength accumulated for the pair (a, b), in hundredths. */
  function RawStrength(a: MemoryNode, b: MemoryNode): nat
  {
    TagWeight * |SharedTags(a.tags, b.tags)|
    + (if SameDay(a, b) then DateWeight else 0)
    + TitleWordWeight * |TitleWords(a, b)|
  }

  /** `Math.min(strength, 1)`. */
  function Capped(raw: nat): nat
  {
    if raw < MaxStrength then raw else MaxStrength
  }

  /** A way of scoring a pair of nodes, in hundredths. */
  type Score = (MemoryNode, MemoryNode) -> nat

  /** The links the pair (a, b) contributes under a score: one when the score
      reaches the threshold, none otherwise. */
  function ScoredLink(score: Score, a: MemoryNode, b: MemoryNode): seq<Link>
  {
    var raw := score(a, b);
    if raw >= LinkThreshold then [Link(a.id, b.id, Capped(raw))] else []
  }

  /** The links the pair (a, b) contributes under `findConnections`' score. */
  function LinkOf(a: MemoryNode, b: MemoryNode): seq<Link>
  {
    ScoredLink(RawStrength, a, b)
  }

  /** The score counts each common tag once (tags carry no repeats), the date
      bonus, and each long title word of a that b's title has. */
  lemma RawStrengthCounts(a: MemoryNode, b: MemoryNode)
    requires NoDup(a.tags)
    ensures RawStrength(a, b) == TagWeight * |CommonTags(a.tags, b.tags)|
                                 + (if SameDay(a, b) then DateWeight else 0)
                                 + TitleWordWeight * |SharedWordPositions(Tokens(Lower(a.title)), Tokens(Lower(b.title)))|
  {
    SharedTagsCount(a.tags, b.tags);
    SharedWordsCount(Tokens(Lower(a.title)), Tokens(Lower(b.title)));
  }

  /** A kept link's strength lies between the threshold and the cap. */
  lemma LinkStrengthBounds(a: MemoryNode, b: MemoryNode)
    ensures forall l :: l in LinkOf(a, b) ==>
              LinkThreshold <= l.strength <= MaxStrength && l.source == a.id && l.target == b.id
    ensures |LinkOf(a, b)| <= 1
    ensures LinkOf(a, b) != [] <==> RawStrength(a, b) >= LinkThreshold
  {
  }

  /** Two nodes with no common tag, no common defined date and no common long
      title word are not linked. */
  lemma NoOverlapNoLink(a: MemoryNode, b: MemoryNode)
    requires forall t :: t in a.tags ==> t !in b.tags
    requires !SameDay(a, b)
    requires forall w :: w in Tokens(Lower(a.title)) && |w| > 3 ==> w !in Tokens(Lower(b.title))
    ensures RawStrength(a, b) == 0
    ensures LinkOf(a, b) == []
  {
    SharedTagsMembers(a.tags, b.tags);
    SharedWordsMembers(Tokens(Lower(a.title)), Tokens(Lower(b.title)));
  }

  /** Four common tags already pass the cap: the link has full strength. */
  lemma FourSharedTagsFullStrength(a: MemoryNode, b: MemoryNode)
    requires |CommonTags(a.tags, b.tags)| >= 4
    ensures LinkOf(a, b) == [Link(a.id, b.id, MaxStrength)]
  {
    SharedTagsCount(a.tags, b.tags);
  }

  /* ---------------- The pairs, in loop order ---------------- */

  /** The index pair (i, j) of nodes[i] and nodes[j]. */
  datatype Pair = Pair(i: nat, j: nat)

  /** Lexicographic order: the order of the outer loop, then the inner one. */
  predicate Before(p: Pair, q: Pair) {
    p.i < q.i || (p.i == q.i && p.j < q.j)
  }

  predicate Sorted(ps: seq<Pair>) {
    forall a, b :: 0 <= a < b < |ps| ==> Before(ps[a], ps[b])
  }

  /** The pairs (i, lo), (i, lo + 1), ..., (i, hi - 1). */
  function RowPairs(i: nat, lo: nat, hi: nat): (ps: seq<Pair>)
    requires lo <= hi
    ensures |ps| == hi - lo
    ensures forall m :: 0 <= m < |ps| ==> ps[m] == Pair(i, lo + m)
    decreases hi - lo
  {
    if hi == lo then [] else RowPairs(i, lo, hi - 1) + [Pair(i, hi - 1)]
  }

  /** The pairs the loops visit in the first i rows, for n nodes. */
  function PairsBefore(i: nat, n: nat): (ps: seq<Pair>)
    requires i <= n
    ensures InRange(ps, n)
  {
    if i == 0 then [] else PairsBefore(i - 1, n) + RowPairs(i - 1, i, n)
  }

  /** Every pair i < j < n, in the order the loops visit them. */
  function AllPairs(n: nat): seq<Pair>
  {
    PairsBefore(n, n)
  }

  /** The first i rows hold exactly the pairs p.i < i, p.i < p.j < n. */
  lemma {:induction false} PairsBeforeExact(i: nat, n: nat)
    requires i <= n
    ensures forall p :: p in PairsBefore(i, n) <==> p.i < i && p.i < p.j < n
    decreases i
  {
    if i > 0 {
      PairsBeforeExact(i - 1, n);
      RowPairsExact(i - 1, i, n);
      RowsAppend(i - 1, n, PairsBefore(i - 1, n), RowPairs(i - 1, i, n));
    }
  }

  /** The first r rows followed by row r are the first r + 1 rows. */
  lemma RowsAppend(r: nat, n: nat, prev: seq<Pair>, row: seq<Pair>)
    requires forall p :: p in prev <==> p.i < r && p.i < p.j < n
    requires forall p :: p in row <==> p.i == r && r + 1 <= p.j < n
    ensures forall p :: p in prev + row <==> p.i < r + 1 && p.i < p.j < n
  {
  }

  /** The first i rows are visited in lexicographic order. */
  lemma {:induction false} PairsBeforeSorted(i: nat, n: nat)
    requires i <= n
    ensures Sorted(PairsBefore(i, n))
    decreases i
  {
    if i > 0 {
      var prev, row := PairsBefore(i - 1, n), RowPairs(i - 1, i, n);
      assert Sorted(prev + row) by {
        PairsBeforeSorted(i - 1, n);
        PairsBeforeExact(i - 1, n);
        SortedAppend(prev, i - 1, i, n);
      }
      assert PairsBefore(i, n) == prev + row;
    }
  }

  /** The members of a row. */
  lemma RowPairsExact(r: nat, lo: nat, hi: nat)
    requires lo <= hi
    ensures forall p :: p in RowPairs(r, lo, hi) <==> p.i == r && lo <= p.j < hi
  {
    var row := RowPairs(r, lo, hi);
    forall p | p in row
      ensures p.i == r && lo <= p.j < hi
    {
      var m :| 0 <= m < |row| && row[m] == p;
    }
    forall p: Pair | p.i == r && lo <= p.j < hi
      ensures p in row
    {
      assert row[p.j - lo] == p;
    }
  }

  /** The first i rows hold i * (2n - i - 1) / 2 pairs. */
  lemma {:induction false} PairsBeforeCount(i: nat, n: nat)
    requires i <= n
    ensures 2 * |PairsBefore(i, n)| == i * (2 * n - i - 1)
    decreases i
  {
    if i > 0 {
      var k := i - 1;
      PairsBeforeCount(k, n);
      assert |PairsBefore(i, n)| == |PairsBefore(k, n)| + (n - i);
      RowCountStep(k, n);
    }
  }

  lemma RowCountStep(k: nat, n: nat)
    ensures (k + 1) * (2 * n - k - 2) == k * (2 * n - k - 1) + 2 * (n - k - 1)
  {
  }

  /** A row appended after pairs of earlier rows keeps the order. */
  lemma SortedAppend(prev: seq<Pair>, r: nat, lo: nat, hi: nat)
    requires lo <= hi && Sorted(prev)
    requires forall p :: p in prev <==> p.i < r && p.i < p.j < hi
    ensures Sorted(prev + RowPairs(r, lo, hi))
  {
    var all := prev + RowPairs(r, lo, hi);
    forall a, b | 0 <= a < b < |all|
      ensures Before(all[a], all[b])
    {
      if b < |prev| {
        assert all[a] == prev[a] && all[b] == prev[b];
      } else if a < |prev| {
        assert all[a] in prev;
      }
    }
  }

  /** The loops visit each pair i < j < n once, in lexicographic order, and
      there are n * (n - 1) / 2 of them. */
  lemma AllPairsExact(n: nat)
    ensures forall p :: p in AllPairs(n) <==> p.i < p.j < n
    ensures Sorted(AllPairs(n))
    ensures |AllPairs(n)| == n * (n - 1) / 2
  {
    PairsBeforeExact(n, n);
    PairsBeforeSorted(n, n);
    PairsBeforeCount(n, n);
  }

  /* ---------------- The links ---------------- */

  /** Every pair indexes into the node list. */
  predicate InRange(ps: seq<Pair>, n: nat) {
    forall k :: 0 <= k < |ps| ==> ps[k].i < n && ps[k].j < n
  }

  /** The links the loops emit while visiting the pairs ps, in order. */
  function LinksAlong(score: Score, nodes: seq<MemoryNode>, ps: seq<Pair>): seq<Link>
    requires InRange(ps, |nodes|)
  {
    if ps == [] then []
    else
      var p := ps[|ps| - 1];
      assert p in ps;
      LinksAlong(score, nodes, ps[..|ps| - 1]) + ScoredLink(score, nodes[p.i], nodes[p.j])
  }


  /** The pairs that become links, in the order the loops meet them. */
  function LinkedPairs(nodes: seq<MemoryNode>): seq<Pair>
  {
    Kept(RawStrength, nodes, AllPairs(|nodes|))
  }

  /** The pairs among ps whose raw strength reaches the threshold, in order. */
  function Kept(score: Score, nodes: seq<MemoryNode>, ps: seq<Pair>): (kept: seq<Pair>)
    requires InRange(ps, |nodes|)
    ensures |kept| <= |ps|
    ensures forall p :: p in kept <==> p in ps && score(nodes[p.i], nodes[p.j]) >= LinkThreshold
  {
    if ps == [] then []
    else
      var p := ps[|ps| - 1];
      assert forall q :: q in ps <==> q in ps[..|ps| - 1] || q == p by {
        FrontAndLast(ps);
      }
      Kept(score, nodes, ps[..|ps| - 1]) + (if score(nodes[p.i], nodes[p.j]) >= LinkThreshold then [p] else [])
  }

  /** The link a kept pair becomes. */
  function LinkAt(score: Score, nodes: seq<MemoryNode>, p: Pair): Link
    requires p.i < |nodes| && p.j < |nodes|
  {
    Link(nodes[p.i].id, nodes[p.j].id, Capped(score(nodes[p.i], nodes[p.j])))
  }

  lemma InRangeFront(ps: seq<Pair>, n: nat)
    requires ps != [] && InRange(ps, n)
    ensures InRange(ps[..|ps| - 1], n)
  {
    forall q | q in ps[..|ps| - 1] ensures q in ps { FrontAndLast(ps); }
  }

  /** The m-th link emitted along ps is made from the m-th kept pair. */
  lemma {:induction false} LinksAlongKept(score: Score, nodes: seq<MemoryNode>, ps: seq<Pair>)
    requires InRange(ps, |nodes|)
    ensures LinksMatchKept(score, nodes, ps)
    decreases |ps|
  {
    if ps != [] {
      InRangeFront(ps, |nodes|);
      LinksAlongKept(score, nodes, ps[..|ps| - 1]);
      LinksMatchKeptStep(score, nodes, ps);
    }
  }

  /** One link per kept pair, made from that pair, in the same order. */
  predicate LinksMatchKept(score: Score, nodes: seq<MemoryNode>, ps: seq<Pair>)
    requires InRange(ps, |nodes|)
  {
    && |LinksAlong(score, nodes, ps)| == |Kept(score, nodes, ps)|
    && forall m :: 0 <= m < |Kept(score, nodes, ps)| ==>
         Kept(score, nodes, ps)[m].i < |nodes| && Kept(score, nodes, ps)[m].j < |nodes|
         && LinksAlong(score, nodes, ps)[m] == LinkAt(score, nodes, Kept(score, nodes, ps)[m])
  }

  lemma LinksMatchKeptStep(score: Score, nodes: seq<MemoryNode>, ps: seq<Pair>)
    requires ps != [] && InRange(ps, |nodes|) && InRange(ps[..|ps| - 1], |nodes|)
    requires LinksMatchKept(score, nodes, ps[..|ps| - 1])
    ensures LinksMatchKept(score, nodes, ps)
  {
    var front := ps[..|ps| - 1];
    var p := ps[|ps| - 1];
    assert p in ps;
    var links, kept := LinksAlong(score, nodes, ps), Kept(score, nodes, ps);
    forall m | 0 <= m < |kept|
      ensures kept[m].i < |nodes| && kept[m].j < |nodes| && links[m] == LinkAt(score, nodes, kept[m])
    {
      if m < |Kept(score, nodes, front)| {
        assert kept[m] == Kept(score, nodes, front)[m];
        assert links[m] == LinksAlong(score, nodes, front)[m];
      }
    }
  }

  /** Kept pairs of a sorted visit are themselves in order. */
  lemma {:induction false} KeptSorted(score: Score, nodes: seq<MemoryNode>, ps: seq<Pair>)
    requires InRange(ps, |nodes|) && Sorted(ps)
    ensures Sorted(Kept(score, nodes, ps))
    decreases |ps|
  {
    if ps != [] {
      var front := ps[..|ps| - 1];
      InRangeFront(ps, |nodes|);
      FrontAndLast(ps);
      FrontBeforeLast(front, ps[|ps| - 1]);
      KeptSorted(score, nodes, front);
      SortedSnoc(Kept(score, nodes, front), ps[|ps| - 1]);
    }
  }

  /** In a sorted sequence every earlier element precedes the last one. */
  lemma FrontBeforeLast(front: seq<Pair>, p: Pair)
    requires Sorted(front + [p])
    ensures Sorted(front)
    ensures forall q :: q in front ==> Before(q, p)
  {
    var ps := front + [p];
    forall a, b | 0 <= a < b < |front|
      ensures Before(front[a], front[b])
    {
      assert ps[a] == front[a] && ps[b] == front[b];
    }
    forall q | q in front
      ensures Before(q, p)
    {
      var a :| 0 <= a < |front| && front[a] == q;
      assert ps[a] == q && ps[|front|] == p;
    }
  }

  lemma SortedSnoc(ps: seq<Pair>, p: Pair)
    requires Sorted(ps) && forall q :: q in ps ==> Before(q, p)
    ensures Sorted(ps + [p])
  {
    var all := ps + [p];
    forall a, b | 0 <= a < b < |all|
      ensures Before(all[a], all[b])
    {
      assert all[a] == ps[a];
      if b == |ps| {
        assert ps[a] in ps;
      }
    }
  }

  /** Visiting one more pair emits that pair's links after the others. */
  lemma LinksAlongSnoc(score: Score, nodes: seq<MemoryNode>, ps: seq<Pair>, p: Pair)
    requires InRange(ps, |nodes|) && p.i < |nodes| && p.j < |nodes|
    ensures InRange(ps + [p], |nodes|)
    ensures LinksAlong(score, nodes, ps + [p]) == LinksAlong(score, nodes, ps) + ScoredLink(score, nodes[p.i], nodes[p.j])
  {
    assert (ps + [p])[..|ps|] == ps;
  }

  /** Row i of the pairs up to j: (i, i + 1), ..., (i, j - 1). */
  function RowOf(i: nat, j: nat, n: nat): (ps: seq<Pair>)
    requires i < j <= n
    ensures InRange(ps, n)
  {
    RowPairs(i, i + 1, j)
  }

  lemma AppendEmpty<T>(xs: seq<T>)
    ensures xs + [] == xs
  {
  }

  lemma AppendSnoc<T>(xs: seq<T>, front: seq<T>, y: T)
    ensures xs + (front + [y]) == (xs + front) + [y]
  {
  }

  /** The links along two visits in a row are the links along each. */
  lemma {:induction false} LinksAlongAppend(score: Score, nodes: seq<MemoryNode>, xs: seq<Pair>, ys: seq<Pair>)
    requires InRange(xs, |nodes|) && InRange(ys, |nodes|)
    ensures InRange(xs + ys, |nodes|)
    ensures LinksAlong(score, nodes, xs + ys) == LinksAlong(score, nodes, xs) + LinksAlong(score, nodes, ys)
    decreases |ys|
  {
    if ys == [] {
      AppendEmpty(xs);
    } else {
      var front, y := ys[..|ys| - 1], ys[|ys| - 1];
      InRangeFront(ys, |nodes|);
      LinksAlongAppend(score, nodes, xs, front);
      FrontAndLast(ys);
      AppendSnoc(xs, front, y);
      LinksAlongSnoc(score, nodes, xs + front, y);
      LinksAlongSnoc(score, nodes, front, y);
    }
  }

  /** The links of the first i rows, as the outer loop builds them. */
  function LinksBefore(score: Score, nodes: seq<MemoryNode>, i: nat): seq<Link>
    requires i <= |nodes|
    decreases i, 0, 0
  {
    if i == 0 then [] else RowLinks(score, nodes, i - 1, |nodes|)
  }

  /** The links once the inner loop of row i has reached j. */
  function RowLinks(score: Score, nodes: seq<MemoryNode>, i: nat, j: nat): seq<Link>
    requires i < j <= |nodes|
    decreases i, 1, j
  {
    if j == i + 1 then LinksBefore(score, nodes, i)
    else RowLinks(score, nodes, i, j - 1) + ScoredLink(score, nodes[i], nodes[j - 1])
  }

  /** The links `findConnections` returns: row after row of the nested loops. */
  function Connections(nodes: seq<MemoryNode>): seq<Link>
  {
    LinksBefore(RawStrength, nodes, |nodes|)
  }

  /** Row by row, the loops emit the links of all pairs i < j in order. */
  lemma ConnectionsAlongPairs(nodes: seq<MemoryNode>)
    ensures Connections(nodes) == LinksAlong(RawStrength, nodes, AllPairs(|nodes|))
  {
    LinksBeforeAlong(RawStrength, nodes, |nodes|);
  }

  /** The first i rows emit the links of the pairs they visit. */
  lemma {:induction false} LinksBeforeAlong(score: Score, nodes: seq<MemoryNode>, i: nat)
    requires i <= |nodes|
    ensures LinksBefore(score, nodes, i) == LinksAlong(score, nodes, PairsBefore(i, |nodes|))
  {
    if i > 0 {
      LinksBeforeAlong(score, nodes, i - 1);
      LinksBeforeStep(score, nodes, i - 1);
    }
  }

  /** Row r appends the links of its pairs to those of the rows before it. */
  lemma LinksBeforeStep(score: Score, nodes: seq<MemoryNode>, r: nat)
    requires r < |nodes|
    requires LinksBefore(score, nodes, r) == LinksAlong(score, nodes, PairsBefore(r, |nodes|))
    ensures LinksBefore(score, nodes, r + 1) == LinksAlong(score, nodes, PairsBefore(r + 1, |nodes|))
  {
    RowLinksAlong(score, nodes, r, |nodes|);
    LinksAlongAppend(score, nodes, PairsBefore(r, |nodes|), RowOf(r, |nodes|, |nodes|));
  }

  /** Row i, up to j, appends the links of its pairs so far to those of the
      rows before it. */
  lemma {:induction false} RowLinksAlong(score: Score, nodes: seq<MemoryNode>, i: nat, j: nat)
    requires i < j <= |nodes|
    ensures RowLinks(score, nodes, i, j) == LinksBefore(score, nodes, i) + LinksAlong(score, nodes, RowOf(i, j, |nodes|))
  {
    if j > i + 1 {
      RowLinksAlong(score, nodes, i, j - 1);
      RowLinksStep(score, nodes, i, j - 1, LinksBefore(score, nodes, i), RowOf(i, j - 1, |nodes|));
      assert RowOf(i, j, |nodes|) == RowOf(i, j - 1, |nodes|) + [Pair(i, j - 1)];
    } else {
      AppendEmpty(LinksBefore(score, nodes, i));
    }
  }

  /** One more pair of row i adds its links after those of the pairs before. */
  lemma RowLinksStep(score: Score, nodes: seq<MemoryNode>, i: nat, j: nat, before: seq<Link>, ps: seq<Pair>)
    requires i < j < |nodes| && InRange(ps, |nodes|)
    requires RowLinks(score, nodes, i, j) == before + LinksAlong(score, nodes, ps)
    ensures InRange(ps + [Pair(i, j)], |nodes|)
    ensures RowLinks(score, nodes, i, j + 1) == before + LinksAlong(score, nodes, ps + [Pair(i, j)])
  {
    LinksAlongSnoc(score, nodes, ps, Pair(i, j));
  }

  /* ---------------- Properties of the result ---------------- */

  /** The linked pairs are exactly the pairs i < j whose raw strength reaches
      the threshold, in lexicographic order. */
  lemma LinkedPairsExact(nodes: seq<MemoryNode>)
    ensures forall p :: p in LinkedPairs(nodes) <==>
              p.i < p.j < |nodes| && RawStrength(nodes[p.i], nodes[p.j]) >= LinkThreshold
    ensures Sorted(LinkedPairs(nodes))
  {
    AllPairsExact(|nodes|);
    KeptSorted(RawStrength, nodes, AllPairs(|nodes|));
  }

  /** The m-th link joins the ids of the m-th linked pair, with the capped raw
      strength. */
  lemma ConnectionsFromPairs(nodes: seq<MemoryNode>)
    ensures |Connections(nodes)| == |LinkedPairs(nodes)|
    ensures forall m :: 0 <= m < |LinkedPairs(nodes)| ==>
              var p := LinkedPairs(nodes)[m];
              && p.i < |nodes| && p.j < |nodes|
              && Connections(nodes)[m] == Link(nodes[p.i].id, nodes[p.j].id, Capped(RawStrength(nodes[p.i], nodes[p.j])))
  {
    ConnectionsAlongPairs(nodes);
    LinksAlongKept(RawStrength, nodes, AllPairs(|nodes|));
  }

  /** At most one link per pair i < j: no more than n * (n - 1) / 2 links. */
  lemma ConnectionsCount(nodes: seq<MemoryNode>)
    ensures |Connections(nodes)| <= |nodes| * (|nodes| - 1) / 2
  {
    AllPairsExact(|nodes|);
    ConnectionsAlongPairs(nodes);
    LinksAlongKept(RawStrength, nodes, AllPairs(|nodes|));
  }

  /** Every link joins nodes[i] to nodes[j] for some i < j, by their ids, with
      a strength between the threshold and the cap. */
  lemma ConnectionsEndpoints(nodes: seq<MemoryNode>)
    ensures forall l :: l in Connections(nodes) ==>
              && LinkThreshold <= l.strength <= MaxStrength
              && exists i, j :: 0 <= i < j < |nodes| && l.source == nodes[i].id && l.target == nodes[j].id
  {
    LinkedPairsExact(nodes);
    ConnectionsFromPairs(nodes);
    var links, kept := Connections(nodes), LinkedPairs(nodes);
    forall l | l in links
      ensures LinkThreshold <= l.strength <= MaxStrength
      ensures exists i, j :: 0 <= i < j < |nodes| && l.source == nodes[i].id && l.target == nodes[j].id
    {
      var m :| 0 <= m < |links| && links[m] == l;
      var p := kept[m];
      assert p in kept;
    }
  }

  /* ---------------- The loops ---------------- */

  /** The body of the inner loop up to the threshold test: the strength
      accumulated for nodeA and nodeB, term by term. */
  method PairStrength(nodeA: MemoryNode, nodeB: MemoryNode) returns (strength: nat)
    ensures strength == RawStrength(nodeA, nodeB)
  {
    strength := 0;
    var sharedTags := SharedTags(nodeA.tags, nodeB.tags);
    strength := strength + |sharedTags| * TagWeight;
    if nodeA.date.Some? && nodeA.date.value != [] && nodeA.date == nodeB.date {
      strength := strength + DateWeight;
    }
    var wordsA := Tokens(Lower(nodeA.title));
    var wordsB := Tokens(Lower(nodeB.title));
    var sharedWords := SharedWords(wordsA, wordsB);
    strength := strength + |sharedWords| * TitleWordWeight;
  }

  /** `findConnections(nodes)`. */
  method FindConnections(nodes: seq<MemoryNode>) returns (links: seq<Link>)
    ensures links == Connections(nodes)
  {
    links := [];
    for i := 0 to |nodes|
      invariant links == LinksBefore(RawStrength, nodes, i)
    {
      for j := i + 1 to |nodes|
        invariant links == RowLinks(RawStrength, nodes, i, j)
      {
        var nodeA := nodes[i];
        var nodeB := nodes[j];
        var strength := PairStrength(nodeA, nodeB);
        if strength >= LinkThreshold {
          links := links + [Link(nodeA.id, nodeB.id, Capped(strength))];
        }
      }
    }
  }
}
