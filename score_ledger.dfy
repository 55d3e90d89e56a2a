/**
 * The score ledger: an unbalanced binary search tree of score records,
 * ordered by score (smaller scores to the left, equal or greater to the
 * right), built by repeated insertion and walked in order for the
 * leaderboard. Deletion searches by player name, not by score.
 *
 * Each operation returns the new root, as the pointer-based original does;
 * a tree is a value here, and the traversals return the records they visit
 * instead of printing them.
 */
module ScoreLedger {
  import opened CrosswordTypes
  import opened CStrings

  /** The records held by a tree, with multiplicity. */
  function Records(t: ScoreNode): multiset<ScoreRecord> {
    match t
    case Nil => multiset{}
    case Node(x, l, r) => Records(l) + multiset{x} + Records(r)
  }

  /** The number of nodes of a tree. */
  function Size(t: ScoreNode): nat {
    match t
    case Nil => 0
    case Node(_, l, r) => Size(l) + 1 + Size(r)
  }

  /** Every score in `t` is below `s`. */
  predicate AllBelow(t: ScoreNode, s: int) {
    forall x :: x in Records(t) ==> x.score < s
  }

  /** Every score in `t` is at least `s`. */
  predicate AllAtLeast(t: ScoreNode, s: int) {
    forall x :: x in Records(t) ==> x.score >= s
  }

  /**
   * The search-tree ordering: at every node, the left subtree holds only
   * smaller scores and the right subtree only equal or greater ones.
   */
  predicate Ordered(t: ScoreNode) {
    match t
    case Nil => true
    case Node(x, l, r) => Ordered(l) && Ordered(r) && AllBelow(l, x.score) && AllAtLeast(r, x.score)
  }

  /** A tree holds as many records as it has nodes. */
  lemma {:induction false} SizeIsRecordCount(t: ScoreNode)
    ensures |Records(t)| == Size(t)
  {
    match t
    case Nil =>
    case Node(_, l, r) =>
      SizeIsRecordCount(l);
      SizeIsRecordCount(r);
  }

  // ---------------------------------------------------------------------
  // Insertion

  /**
   * Insert a new record: go left when its score is below the node's,
   * right otherwise, and hang it as a new leaf.
   */
  function InsertScore(root: ScoreNode, playerName: string, score: int, wordsCorrect: int): (r: ScoreNode)
    ensures Records(r) == Records(root) + multiset{ScoreRecord(playerName, score, wordsCorrect)}
    ensures Size(r) == Size(root) + 1
  {
    match root
    case Nil => Node(ScoreRecord(playerName, score, wordsCorrect), Nil, Nil)
    case Node(x, l, rt) =>
      if score < x.score then Node(x, InsertScore(l, playerName, score, wordsCorrect), rt)
      else Node(x, l, InsertScore(rt, playerName, score, wordsCorrect))
  }

  /** A record whose score equals the root's goes into the right subtree; the left one is untouched. */
  lemma EqualScoreGoesRight(t: ScoreNode, playerName: string, score: int, wordsCorrect: int)
    requires t.Node? && t.rec.score == score
    ensures InsertScore(t, playerName, score, wordsCorrect)
         == Node(t.rec, t.left, InsertScore(t.right, playerName, score, wordsCorrect))
  {
  }

  /** Insertion keeps the search-tree ordering. */
  lemma {:induction false} InsertKeepsOrdered(t: ScoreNode, playerName: string, score: int, wordsCorrect: int)
    requires Ordered(t)
    ensures Ordered(InsertScore(t, playerName, score, wordsCorrect))
  {
    var rec := ScoreRecord(playerName, score, wordsCorrect);
    match t
    case Nil =>
    case Node(x, l, r) =>
      if score < x.score {
        InsertKeepsOrdered(l, playerName, score, wordsCorrect);
        var l' := InsertScore(l, playerName, score, wordsCorrect);
        BoundsKeptByInsert(l, l', rec, x.score);
        assert InsertScore(t, playerName, score, wordsCorrect) == Node(x, l', r);
      } else {
        InsertKeepsOrdered(r, playerName, score, wordsCorrect);
        var r' := InsertScore(r, playerName, score, wordsCorrect);
        BoundsKeptByInsert(r, r', rec, x.score);
        assert InsertScore(t, playerName, score, wordsCorrect) == Node(x, l, r');
      }
  }

  /** A tree that gains one record keeps each bound the old tree and the new record both meet. */
  lemma BoundsKeptByInsert(t: ScoreNode, t': ScoreNode, rec: ScoreRecord, s: int)
    requires Records(t') == Records(t) + multiset{rec}
    ensures AllBelow(t, s) && rec.score < s ==> AllBelow(t', s)
    ensures AllAtLeast(t, s) && rec.score >= s ==> AllAtLeast(t', s)
  {
  }

  // ---------------------------------------------------------------------
  // Traversals

  /** In-order walk (left, node, right): the records in ascending score order. */
  function InorderTraversal(root: ScoreNode): (s: seq<ScoreRecord>)
    ensures |s| == Size(root)
  {
    match root
    case Nil => []
    case Node(x, l, r) => InorderTraversal(l) + [x] + InorderTraversal(r)
  }

  /** Reverse in-order walk (right, node, left): the leaderboard, highest score first. */
  function ReverseInorderTraversal(root: ScoreNode): (s: seq<ScoreRecord>)
    ensures |s| == Size(root)
  {
    match root
    case Nil => []
    case Node(x, l, r) => ReverseInorderTraversal(r) + [x] + ReverseInorderTraversal(l)
  }

  /** The in-order walk visits every record of the tree exactly once. */
  lemma {:induction false} InorderRecords(t: ScoreNode)
    ensures multiset(InorderTraversal(t)) == Records(t)
    ensures |InorderTraversal(t)| == Size(t)
  {
    match t
    case Nil =>
    case Node(_, l, r) =>
      InorderRecords(l);
      InorderRecords(r);
  }

  /** The reverse walk visits every record of the tree exactly once. */
  lemma {:induction false} ReverseInorderRecords(t: ScoreNode)
    ensures multiset(ReverseInorderTraversal(t)) == Records(t)
    ensures |ReverseInorderTraversal(t)| == Size(t)
  {
    match t
    case Nil =>
    case Node(_, l, r) =>
      ReverseInorderRecords(l);
      ReverseInorderRecords(r);
  }

  /** Scores never decrease along `s`. */
  predicate Ascending(s: seq<ScoreRecord>) {
    forall i, j :: 0 <= i < j < |s| ==> s[i].score <= s[j].score
  }

  /** Scores never increase along `s`. */
  predicate Descending(s: seq<ScoreRecord>) {
    forall i, j :: 0 <= i < j < |s| ==> s[i].score >= s[j].score
  }

  /** `s` back to front. */
  function Reversed(s: seq<ScoreRecord>): (r: seq<ScoreRecord>)
    ensures |r| == |s|
  {
    if s == [] then [] else Reversed(s[1..]) + [s[0]]
  }

  /** Reversing a concatenation reverses and swaps its parts. */
  lemma {:induction false} ReversedConcat(a: seq<ScoreRecord>, b: seq<ScoreRecord>)
    ensures Reversed(a + b) == Reversed(b) + Reversed(a)
  {
    if a == [] {
      assert a + b == b;
    } else {
      assert (a + b)[1..] == a[1..] + b;
      ReversedConcat(a[1..], b);
    }
  }

  /** The reverse walk yields exactly the in-order walk read backwards. */
  lemma {:induction false} ReverseInorderIsReversed(t: ScoreNode)
    ensures ReverseInorderTraversal(t) == Reversed(InorderTraversal(t))
  {
    match t
    case Nil =>
    case Node(x, l, r) =>
      ReverseInorderIsReversed(l);
      ReverseInorderIsReversed(r);
      var a, b := InorderTraversal(l), InorderTraversal(r);
      ReversedConcat(a + [x], b);
      ReversedConcat(a, [x]);
  }

  /** A run at or below `x`, then `x`, then a run at or above `x`: ascending when both runs are. */
  lemma AscendingJoin(a: seq<ScoreRecord>, x: ScoreRecord, b: seq<ScoreRecord>)
    requires Ascending(a) && Ascending(b)
    requires forall i :: 0 <= i < |a| ==> a[i].score <= x.score
    requires forall j :: 0 <= j < |b| ==> x.score <= b[j].score
    ensures Ascending(a + [x] + b)
  {
    var s := a + [x] + b;
    forall i, j | 0 <= i < j < |s|
      ensures s[i].score <= s[j].score
    {
      if j < |a| {
      } else if i < |a| {
        assert s[i] == a[i];
        assert j == |a| || s[j] == b[j - |a| - 1];
      } else if i == |a| {
        assert s[j] == b[j - |a| - 1];
      } else {
        assert s[i] == b[i - |a| - 1] && s[j] == b[j - |a| - 1];
      }
    }
  }

  /** A run at or above `x`, then `x`, then a run at or below `x`: descending when both runs are. */
  lemma DescendingJoin(a: seq<ScoreRecord>, x: ScoreRecord, b: seq<ScoreRecord>)
    requires Descending(a) && Descending(b)
    requires forall i :: 0 <= i < |a| ==> a[i].score >= x.score
    requires forall j :: 0 <= j < |b| ==> x.score >= b[j].score
    ensures Descending(a + [x] + b)
  {
    var s := a + [x] + b;
    forall i, j | 0 <= i < j < |s|
      ensures s[i].score >= s[j].score
    {
      if j < |a| {
      } else if i < |a| {
        assert s[i] == a[i];
        assert j == |a| || s[j] == b[j - |a| - 1];
      } else if i == |a| {
        assert s[j] == b[j - |a| - 1];
      } else {
        assert s[i] == b[i - |a| - 1] && s[j] == b[j - |a| - 1];
      }
    }
  }

  /** Every element of a walk is a record of the tree walked. */
  lemma InorderElements(t: ScoreNode)
    ensures forall i :: 0 <= i < |InorderTraversal(t)| ==> InorderTraversal(t)[i] in Records(t)
  {
    var s := InorderTraversal(t);
    InorderRecords(t);
    forall i | 0 <= i < |s|
      ensures s[i] in Records(t)
    {
      assert s[i] in multiset(s);
    }
  }

  /** Every element of a reverse walk is a record of the tree walked. */
  lemma ReverseInorderElements(t: ScoreNode)
    ensures forall i :: 0 <= i < |ReverseInorderTraversal(t)| ==> ReverseInorderTraversal(t)[i] in Records(t)
  {
    var s := ReverseInorderTraversal(t);
    ReverseInorderRecords(t);
    forall i | 0 <= i < |s|
      ensures s[i] in Records(t)
    {
      assert s[i] in multiset(s);
    }
  }

  /** The in-order walk of an ordered tree is in ascending score order. */
  lemma {:induction false} InorderAscending(t: ScoreNode)
    requires Ordered(t)
    ensures Ascending(InorderTraversal(t))
  {
    match t
    case Nil =>
    case Node(x, l, r) =>
      InorderAscending(l);
      InorderAscending(r);
      InorderElements(l);
      InorderElements(r);
      AscendingJoin(InorderTraversal(l), x, InorderTraversal(r));
  }

  /** The reverse walk of an ordered tree is in descending score order: highest score first. */
  lemma {:induction false} ReverseInorderDescending(t: ScoreNode)
    requires Ordered(t)
    ensures Descending(ReverseInorderTraversal(t))
  {
    match t
    case Nil =>
    case Node(x, l, r) =>
      ReverseInorderDescending(l);
      ReverseInorderDescending(r);
      ReverseInorderElements(l);
      ReverseInorderElements(r);
      DescendingJoin(ReverseInorderTraversal(r), x, ReverseInorderTraversal(l));
  }

  // ---------------------------------------------------------------------
  // Repeated insertion is a stable sort by score

  /**
   * Insert `x` into a score-sorted sequence after every record whose score
   * is at most its own: the step of a stable insertion sort.
   */
  function InsertAfterEqual(s: seq<ScoreRecord>, x: ScoreRecord): seq<ScoreRecord> {
    if s == [] then [x]
    else if x.score < s[0].score then [x] + s
    else [s[0]] + InsertAfterEqual(s[1..], x)
  }

  /** Inserting before a run that starts above `x` leaves that run untouched at the end. */
  lemma {:induction false} InsertAfterEqualBefore(a: seq<ScoreRecord>, b: seq<ScoreRecord>, x: ScoreRecord)
    requires b != [] && x.score < b[0].score
    ensures InsertAfterEqual(a + b, x) == InsertAfterEqual(a, x) + b
  {
    if a == [] {
      assert a + b == b;
    } else if x.score >= a[0].score {
      assert (a + b)[1..] == a[1..] + b;
      InsertAfterEqualBefore(a[1..], b, x);
    }
  }

  /** Inserting past a run whose scores are all at most `x`'s leaves that run untouched in front. */
  lemma {:induction false} InsertAfterEqualPast(a: seq<ScoreRecord>, b: seq<ScoreRecord>, x: ScoreRecord)
    requires forall i :: 0 <= i < |a| ==> a[i].score <= x.score
    ensures InsertAfterEqual(a + b, x) == a + InsertAfterEqual(b, x)
  {
    if a != [] {
      assert (a + b)[0] == a[0] && (a + b)[1..] == a[1..] + b;
      InsertAfterEqualPast(a[1..], b, x);
      calc {
        InsertAfterEqual(a + b, x);
        [a[0]] + InsertAfterEqual(a[1..] + b, x);
        [a[0]] + (a[1..] + InsertAfterEqual(b, x));
        { assert a == [a[0]] + a[1..]; }
        a + InsertAfterEqual(b, x);
      }
    } else {
      assert a + b == b;
    }
  }

  /** The in-order walk of a node, grouped as left walk, then the node and the right walk. */
  lemma InorderNode(y: ScoreRecord, l: ScoreNode, r: ScoreNode)
    ensures InorderTraversal(Node(y, l, r)) == InorderTraversal(l) + ([y] + InorderTraversal(r))
  {
  }

  /** The walk after inserting into the left subtree, given the walk of that subtree after insertion. */
  lemma InsertInorderLeft(y: ScoreRecord, l: ScoreNode, r: ScoreNode, x: ScoreRecord)
    requires x.score < y.score
    requires InorderTraversal(InsertScore(l, x.playerName, x.score, x.wordsCorrect))
          == InsertAfterEqual(InorderTraversal(l), x)
    ensures InorderTraversal(InsertScore(Node(y, l, r), x.playerName, x.score, x.wordsCorrect))
         == InsertAfterEqual(InorderTraversal(Node(y, l, r)), x)
  {
    var a, b := InorderTraversal(l), InorderTraversal(r);
    var l' := InsertScore(l, x.playerName, x.score, x.wordsCorrect);
    InorderNode(y, l', r);
    InorderNode(y, l, r);
    InsertAfterEqualBefore(a, [y] + b, x);
  }

  /** The left walk of a node and the node itself all score at most `x` when `x` does not go left. */
  lemma FrontAtMost(y: ScoreRecord, l: ScoreNode, x: ScoreRecord)
    requires x.score >= y.score && AllBelow(l, y.score)
    ensures forall i :: 0 <= i < |InorderTraversal(l) + [y]| ==> (InorderTraversal(l) + [y])[i].score <= x.score
  {
    var a := InorderTraversal(l);
    var front := a + [y];
    InorderElements(l);
    forall i | 0 <= i < |front|
      ensures front[i].score <= x.score
    {
      if i < |a| {
        assert front[i] == a[i] && a[i] in Records(l);
      }
    }
  }

  /** The walk after inserting into the right subtree, given the walk of that subtree after insertion. */
  lemma InsertInorderRight(y: ScoreRecord, l: ScoreNode, r: ScoreNode, x: ScoreRecord)
    requires x.score >= y.score && AllBelow(l, y.score)
    requires InorderTraversal(InsertScore(r, x.playerName, x.score, x.wordsCorrect))
          == InsertAfterEqual(InorderTraversal(r), x)
    ensures InorderTraversal(InsertScore(Node(y, l, r), x.playerName, x.score, x.wordsCorrect))
         == InsertAfterEqual(InorderTraversal(Node(y, l, r)), x)
  {
    var a, b := InorderTraversal(l), InorderTraversal(r);
    var r' := InsertScore(r, x.playerName, x.score, x.wordsCorrect);
    assert InsertScore(Node(y, l, r), x.playerName, x.score, x.wordsCorrect) == Node(y, l, r');
    FrontAtMost(y, l, x);
    InsertAfterEqualPast(a + [y], b, x);
    calc {
      InorderTraversal(Node(y, l, r'));
      a + [y] + InorderTraversal(r');
      a + [y] + InsertAfterEqual(b, x);
      InsertAfterEqual(a + [y] + b, x);
      InsertAfterEqual(InorderTraversal(Node(y, l, r)), x);
    }
  }

  /**
   * Inserting into an ordered tree places the new record, in the in-order
   * walk, after every record with a score at most its own and before every
   * record with a greater score.
   */
  lemma {:induction false} InsertInorder(t: ScoreNode, playerName: string, score: int, wordsCorrect: int)
    requires Ordered(t)
    ensures InorderTraversal(InsertScore(t, playerName, score, wordsCorrect))
         == InsertAfterEqual(InorderTraversal(t), ScoreRecord(playerName, score, wordsCorrect))
  {
    var x := ScoreRecord(playerName, score, wordsCorrect);
    match t
    case Nil =>
    case Node(y, l, r) =>
      if score < y.score {
        InsertInorder(l, playerName, score, wordsCorrect);
        InsertInorderLeft(y, l, r, x);
      } else {
        InsertInorder(r, playerName, score, wordsCorrect);
        InsertInorderRight(y, l, r, x);
      }
  }

  /** The ledger built by inserting the records of `ps` one after another, from an empty tree. */
  function Build(ps: seq<ScoreRecord>): (t: ScoreNode)
    ensures Ordered(t)
    ensures Records(t) == multiset(ps)
  {
    if ps == [] then Nil
    else
      var x := ps[|ps| - 1];
      assert ps == ps[..|ps| - 1] + [x];
      InsertKeepsOrdered(Build(ps[..|ps| - 1]), x.playerName, x.score, x.wordsCorrect);
      InsertScore(Build(ps[..|ps| - 1]), x.playerName, x.score, x.wordsCorrect)
  }

  /** The record a player contributes to the ledger. */
  function PlayerRecord(p: Player): (x: ScoreRecord)
    ensures x.playerName == p.name && x.score == p.score && x.wordsCorrect == p.wordsCorrect
  {
    ScoreRecord(p.name, p.score, p.wordsCorrect)
  }

  /** The ledger of a player table: every player inserted in table order. */
  function LedgerOf(players: seq<Player>): (t: ScoreNode)
    ensures Ordered(t)
    ensures Records(t) == multiset(seq(|players|, i requires 0 <= i < |players| => PlayerRecord(players[i])))
  {
    Build(seq(|players|, i requires 0 <= i < |players| => PlayerRecord(players[i])))
  }

  /** Every name in the tree fits the 50-byte name buffer of a node. */
  predicate NamesFit(t: ScoreNode) {
    forall x :: x in Records(t) ==> FitsBuffer(x.playerName, MAX_NAME_LENGTH)
  }

  /** Inserting a name that fits the node buffer keeps every name in the tree within it. */
  lemma InsertKeepsNamesFit(t: ScoreNode, playerName: string, score: int, wordsCorrect: int)
    requires NamesFit(t) && FitsBuffer(playerName, MAX_NAME_LENGTH)
    ensures NamesFit(InsertScore(t, playerName, score, wordsCorrect))
  {
    var t' := InsertScore(t, playerName, score, wordsCorrect);
    forall x | x in Records(t')
      ensures FitsBuffer(x.playerName, MAX_NAME_LENGTH)
    {
      assert x in Records(t) || x == ScoreRecord(playerName, score, wordsCorrect);
    }
  }

  /** A ledger built from a player table whose names fit their buffers never overflows a node's name buffer. */
  lemma LedgerNamesFit(players: seq<Player>)
    requires forall i :: 0 <= i < |players| ==> FitsBuffer(players[i].name, MAX_NAME_LENGTH)
    ensures NamesFit(LedgerOf(players))
  {
    var ps := seq(|players|, i requires 0 <= i < |players| => PlayerRecord(players[i]));
    forall x | x in Records(LedgerOf(players))
      ensures FitsBuffer(x.playerName, MAX_NAME_LENGTH)
    {
      assert x in multiset(ps);
      var i :| 0 <= i < |ps| && ps[i] == x;
    }
  }

  /** Stable insertion sort by score, inserting in the order of `ps`: the reference for the ledger. */
  function InsertionSort(ps: seq<ScoreRecord>): seq<ScoreRecord> {
    if ps == [] then [] else InsertAfterEqual(InsertionSort(ps[..|ps| - 1]), ps[|ps| - 1])
  }

  /** Walking a ledger built by insertion gives the stable insertion sort of the inserted records. */
  lemma {:induction false} BuildInorder(ps: seq<ScoreRecord>)
    ensures InorderTraversal(Build(ps)) == InsertionSort(ps)
  {
    if ps != [] {
      var x := ps[|ps| - 1];
      BuildInorder(ps[..|ps| - 1]);
      InsertInorder(Build(ps[..|ps| - 1]), x.playerName, x.score, x.wordsCorrect);
    }
  }

  /** The records of `s` with score `v`, in order. */
  function WithScore(s: seq<ScoreRecord>, v: int): seq<ScoreRecord> {
    if s == [] then []
    else (if s[0].score == v then [s[0]] else []) + WithScore(s[1..], v)
  }

  /** Selecting by score distributes over concatenation. */
  lemma {:induction false} WithScoreConcat(a: seq<ScoreRecord>, b: seq<ScoreRecord>, v: int)
    ensures WithScore(a + b, v) == WithScore(a, v) + WithScore(b, v)
  {
    if a == [] {
      assert a + b == b;
    } else {
      var head := if a[0].score == v then [a[0]] else [];
      assert (a + b)[0] == a[0] && (a + b)[1..] == a[1..] + b;
      WithScoreConcat(a[1..], b, v);
      calc {
        WithScore(a + b, v);
        head + WithScore(a[1..] + b, v);
        head + (WithScore(a[1..], v) + WithScore(b, v));
        (head + WithScore(a[1..], v)) + WithScore(b, v);
        WithScore(a, v) + WithScore(b, v);
      }
    }
  }

  /** A sequence whose scores are all above `v` has no record with score `v`. */
  lemma {:induction false} WithScoreNone(s: seq<ScoreRecord>, v: int)
    requires forall i :: 0 <= i < |s| ==> s[i].score > v
    ensures WithScore(s, v) == []
  {
    if s != [] {
      WithScoreNone(s[1..], v);
    }
  }

  /** Selecting from a sequence that starts with `a`. */
  lemma WithScoreCons(a: ScoreRecord, s: seq<ScoreRecord>, v: int)
    ensures WithScore([a] + s, v) == (if a.score == v then [a] else []) + WithScore(s, v)
  {
    assert ([a] + s)[0] == a && ([a] + s)[1..] == s;
  }

  /** Inserting into an ascending sequence puts the new record after all records of equal score. */
  lemma {:induction false} InsertAfterEqualStable(s: seq<ScoreRecord>, x: ScoreRecord, v: int)
    requires Ascending(s)
    ensures WithScore(InsertAfterEqual(s, x), v) == WithScore(s, v) + (if x.score == v then [x] else [])
  {
    var tail := if x.score == v then [x] else [];
    if s == [] {
      WithScoreCons(x, [], v);
    } else if x.score < s[0].score {
      WithScoreCons(x, s, v);
      if x.score == v {
        WithScoreNone(s, v);
      }
    } else {
      var rest := InsertAfterEqual(s[1..], x);
      var head := if s[0].score == v then [s[0]] else [];
      assert Ascending(s[1..]);
      InsertAfterEqualStable(s[1..], x, v);
      WithScoreCons(s[0], rest, v);
      WithScoreCons(s[0], s[1..], v);
      assert [s[0]] + s[1..] == s;
      calc {
        WithScore(InsertAfterEqual(s, x), v);
        WithScore([s[0]] + rest, v);
        head + WithScore(rest, v);
        head + (WithScore(s[1..], v) + tail);
        (head + WithScore(s[1..], v)) + tail;
        WithScore(s, v) + tail;
      }
    }
  }

  /** The stable insertion sort is ascending by score. */
  lemma InsertionSortAscending(ps: seq<ScoreRecord>)
    ensures Ascending(InsertionSort(ps))
  {
    BuildInorder(ps);
    InorderAscending(Build(ps));
  }

  /** The stable insertion sort keeps the records of each score in input order. */
  lemma {:induction false} InsertionSortStable(ps: seq<ScoreRecord>, v: int)
    ensures WithScore(InsertionSort(ps), v) == WithScore(ps, v)
    decreases |ps|
  {
    if ps != [] {
      var init, x := ps[..|ps| - 1], ps[|ps| - 1];
      InsertionSortStable(init, v);
      InsertionSortAscending(init);
      InsertAfterEqualStable(InsertionSort(init), x, v);
      assert ps == init + [x];
      WithScoreConcat(init, [x], v);
    }
  }

  /**
   * The ledger's in-order walk is a stable sort of the inserted records:
   * ascending by score, a permutation of the input, and the records of any
   * one score in the order they were inserted.
   */
  lemma LedgerIsStableSort(ps: seq<ScoreRecord>, v: int)
    ensures Ascending(InorderTraversal(Build(ps)))
    ensures multiset(InorderTraversal(Build(ps))) == multiset(ps)
    ensures WithScore(InorderTraversal(Build(ps)), v) == WithScore(ps, v)
  {
    InorderAscending(Build(ps));
    InorderRecords(Build(ps));
    BuildInorder(ps);
    InsertionSortStable(ps, v);
  }

  /**
   * The leaderboard of a built ledger is the stable ascending sort read
   * backwards: highest score first, every record once.
   */
  lemma LeaderboardIsReversedSort(ps: seq<ScoreRecord>)
    ensures ReverseInorderTraversal(Build(ps)) == Reversed(InsertionSort(ps))
    ensures Descending(ReverseInorderTraversal(Build(ps)))
    ensures multiset(ReverseInorderTraversal(Build(ps))) == multiset(ps)
  {
    ReverseInorderIsReversed(Build(ps));
    BuildInorder(ps);
    ReverseInorderDescending(Build(ps));
    ReverseInorderRecords(Build(ps));
  }

  /** Inserting (10, "A"), (30, "B"), (10, "C") into an empty ledger walks in order as A 10, C 10, B 30. */
  lemma TieBreakExample()
    ensures InorderTraversal(InsertScore(InsertScore(InsertScore(Nil, "A", 10, 0), "B", 30, 0), "C", 10, 0))
         == [ScoreRecord("A", 10, 0), ScoreRecord("C", 10, 0), ScoreRecord("B", 30, 0)]
  {
    var a, b, c := ScoreRecord("A", 10, 0), ScoreRecord("B", 30, 0), ScoreRecord("C", 10, 0);
    var t1 := InsertScore(Nil, "A", 10, 0);
    assert t1 == Node(a, Nil, Nil);
    var t2 := InsertScore(t1, "B", 30, 0);
    assert t2 == Node(a, Nil, Node(b, Nil, Nil));
    var t3 := InsertScore(t2, "C", 10, 0);
    assert t3 == Node(a, Nil, Node(b, Node(c, Nil, Nil), Nil));
  }

  // ---------------------------------------------------------------------
  // Deletion by name

  /** The record of the leftmost node: the minimum of an ordered tree. */
  function LeftMost(t: ScoreNode): (m: ScoreRecord)
    requires t.Node?
    ensures m in Records(t)
    ensures Ordered(t) ==> forall x :: x in Records(t) ==> m.score <= x.score
  {
    if t.left == Nil then t.rec else LeftMost(t.left)
  }

  /**
   * Delete by player name. The search compares the name with each node's
   * name (`strcmp`) although the tree is ordered by score: smaller goes
   * left, greater goes right. A found node with at most one child is
   * replaced by that child; one with two children takes over the record of
   * the leftmost node of its right subtree, and that record's name is then
   * deleted from the right subtree by the same name search.
   */
  function DeleteScore(root: ScoreNode, playerName: string): (r: ScoreNode)
    ensures forall x :: x in Records(r) ==> x in Records(root)
    ensures Size(root) - 1 <= Size(r) <= Size(root)
  {
    match root
    case Nil => Nil
    case Node(x, l, rt) =>
      var cmp := StrCmp(playerName, x.playerName);
      if cmp < 0 then Node(x, DeleteScore(l, playerName), rt)
      else if cmp > 0 then Node(x, l, DeleteScore(rt, playerName))
      else if l == Nil then rt
      else if rt == Nil then l
      else
        var m := LeftMost(rt);
        Node(m, l, DeleteScore(rt, m.playerName))
  }

  /**
   * Deletion keeps the score ordering: splicing out a node keeps it, and so
   * does copying up the minimum of the right subtree.
   */
  lemma {:induction false} DeleteKeepsOrdered(t: ScoreNode, playerName: string)
    requires Ordered(t)
    ensures Ordered(DeleteScore(t, playerName))
  {
    match t
    case Nil =>
    case Node(x, l, r) =>
      var cmp := StrCmp(playerName, x.playerName);
      if cmp < 0 {
        DeleteKeepsOrdered(l, playerName);
        var l' := DeleteScore(l, playerName);
        assert AllBelow(l', x.score);
        assert DeleteScore(t, playerName) == Node(x, l', r);
      } else if cmp > 0 {
        DeleteKeepsOrdered(r, playerName);
        var r' := DeleteScore(r, playerName);
        assert AllAtLeast(r', x.score);
        assert DeleteScore(t, playerName) == Node(x, l, r');
      } else if l != Nil && r != Nil {
        var m := LeftMost(r);
        DeleteKeepsOrdered(r, m.playerName);
        var r' := DeleteScore(r, m.playerName);
        assert m in Records(r);
        assert AllBelow(l, m.score);
        assert AllAtLeast(r', m.score);
        assert DeleteScore(t, playerName) == Node(m, l, r');
      }
  }

  /** The name search of `DeleteScore` meets a node carrying `playerName`. */
  predicate OnSearchPath(t: ScoreNode, playerName: string) {
    match t
    case Nil => false
    case Node(x, l, r) =>
      var cmp := StrCmp(playerName, x.playerName);
      if cmp < 0 then OnSearchPath(l, playerName)
      else if cmp > 0 then OnSearchPath(r, playerName)
      else true
  }

  /** When the name search meets no node of that name, deletion returns the tree unchanged. */
  lemma {:induction false} DeleteOffPath(t: ScoreNode, playerName: string)
    requires !OnSearchPath(t, playerName)
    ensures DeleteScore(t, playerName) == t
  {
    match t
    case Nil =>
    case Node(x, l, r) =>
      var cmp := StrCmp(playerName, x.playerName);
      if cmp < 0 {
        DeleteOffPath(l, playerName);
      } else if cmp > 0 {
        DeleteOffPath(r, playerName);
      }
  }

  /** The name search can only meet a name that some record of the tree carries. */
  lemma {:induction false} SearchPathFindsName(t: ScoreNode, playerName: string)
    requires OnSearchPath(t, playerName)
    ensures exists x :: x in Records(t) && x.playerName == playerName
  {
    match t
    case Node(x, l, r) =>
      var cmp := StrCmp(playerName, x.playerName);
      if cmp < 0 {
        SearchPathFindsName(l, playerName);
      } else if cmp > 0 {
        SearchPathFindsName(r, playerName);
      }
  }

  /** The node at which the name search of `DeleteScore` stops. */
  function Found(t: ScoreNode, playerName: string): (n: ScoreNode)
    requires OnSearchPath(t, playerName)
    ensures n.Node? && n.rec.playerName == playerName && n.rec in Records(t)
  {
    var cmp := StrCmp(playerName, t.rec.playerName);
    if cmp < 0 then Found(t.left, playerName)
    else if cmp > 0 then Found(t.right, playerName)
    else t
  }

  /**
   * When the name search stops at a node with at most one child, deletion
   * removes exactly that node: its record leaves the tree and the node count
   * drops by one.
   */
  lemma {:induction false} DeleteFoundSplice(t: ScoreNode, playerName: string)
    requires OnSearchPath(t, playerName)
    requires Found(t, playerName).left == Nil || Found(t, playerName).right == Nil
    ensures Records(DeleteScore(t, playerName)) + multiset{Found(t, playerName).rec} == Records(t)
    ensures Size(DeleteScore(t, playerName)) == Size(t) - 1
  {
    var x, l, r := t.rec, t.left, t.right;
    var cmp := StrCmp(playerName, x.playerName);
    if cmp < 0 {
      var m := Found(l, playerName).rec;
      assert Found(t, playerName) == Found(l, playerName);
      DeleteFoundSplice(l, playerName);
      LeftLosesOne(x, l, DeleteScore(l, playerName), r, m);
      assert DeleteScore(t, playerName) == Node(x, DeleteScore(l, playerName), r);
    } else if cmp > 0 {
      var m := Found(r, playerName).rec;
      assert Found(t, playerName) == Found(r, playerName);
      DeleteFoundSplice(r, playerName);
      RightLosesOne(x, l, r, DeleteScore(r, playerName), m);
      assert DeleteScore(t, playerName) == Node(x, l, DeleteScore(r, playerName));
    } else {
      assert Found(t, playerName) == t;
      assert DeleteScore(t, playerName) == if l == Nil then r else l;
    }
  }

  /** A node whose left subtree loses one record loses that record, and one node, itself. */
  lemma LeftLosesOne(x: ScoreRecord, c: ScoreNode, c': ScoreNode, r: ScoreNode, m: ScoreRecord)
    requires Records(c') + multiset{m} == Records(c) && Size(c') == Size(c) - 1
    ensures Records(Node(x, c', r)) + multiset{m} == Records(Node(x, c, r))
    ensures Size(Node(x, c', r)) == Size(Node(x, c, r)) - 1
  {
    var a, b := Records(c'), Records(r);
    calc {
      Records(Node(x, c', r)) + multiset{m};
      a + multiset{x} + b + multiset{m};
      { assert a + multiset{x} + b + multiset{m} == (a + multiset{m}) + multiset{x} + b; }
      Records(c) + multiset{x} + b;
    }
  }

  /** A node whose right subtree loses one record loses that record, and one node, itself. */
  lemma RightLosesOne(x: ScoreRecord, l: ScoreNode, c: ScoreNode, c': ScoreNode, m: ScoreRecord)
    requires Records(c') + multiset{m} == Records(c) && Size(c') == Size(c) - 1
    ensures Records(Node(x, l, c')) + multiset{m} == Records(Node(x, l, c))
    ensures Size(Node(x, l, c')) == Size(Node(x, l, c)) - 1
  {
    var a, b := Records(l), Records(c');
    calc {
      Records(Node(x, l, c')) + multiset{m};
      a + multiset{x} + b + multiset{m};
      { assert b + multiset{m} == Records(c); }
      a + multiset{x} + Records(c);
    }
  }

  /**
   * The two-children case of deletion at node `f` in which the second name
   * search, for the successor's name in the right subtree, stops at a node
   * with at most one child.
   */
  predicate CopyUpHits(f: ScoreNode) {
    f.Node? && f.left != Nil && f.right != Nil &&
    OnSearchPath(f.right, LeftMost(f.right).playerName) &&
    (Found(f.right, LeftMost(f.right).playerName).left == Nil ||
     Found(f.right, LeftMost(f.right).playerName).right == Nil)
  }

  /** The in-order successor of a node with two children: the leftmost record of its right subtree. */
  function Successor(f: ScoreNode): (m: ScoreRecord)
    requires CopyUpHits(f)
    ensures m in Records(f.right)
  {
    LeftMost(f.right)
  }

  /** The two records that leave the tree in the copy-up case: the found one and the one the second search stops at. */
  function CopyUpLost(f: ScoreNode): (lost: multiset<ScoreRecord>)
    requires CopyUpHits(f)
    ensures |lost| == 2 && f.rec in lost
  {
    multiset{f.rec} + multiset{Found(f.right, Successor(f).playerName).rec}
  }

  /**
   * When the name search stops at a node with two children and the second
   * search finds the successor's name, the found record leaves the tree, the
   * successor's record is copied up in its place, the record the second search
   * stops at leaves the right subtree, and the node count drops by one.
   */
  lemma {:induction false} DeleteFoundCopyUp(t: ScoreNode, playerName: string)
    requires OnSearchPath(t, playerName) && CopyUpHits(Found(t, playerName))
    ensures Records(DeleteScore(t, playerName)) + CopyUpLost(Found(t, playerName))
      == Records(t) + multiset{Successor(Found(t, playerName))}
    ensures Size(DeleteScore(t, playerName)) == Size(t) - 1
  {
    var f := Found(t, playerName);
    var cmp := StrCmp(playerName, t.rec.playerName);
    if cmp < 0 {
      assert f == Found(t.left, playerName);
      DeleteFoundCopyUp(t.left, playerName);
      DeleteThroughLeft(t, playerName, CopyUpLost(f), multiset{Successor(f)});
    } else if cmp > 0 {
      assert f == Found(t.right, playerName);
      DeleteFoundCopyUp(t.right, playerName);
      DeleteThroughRight(t, playerName, CopyUpLost(f), multiset{Successor(f)});
    } else {
      assert f == t;
      CopyUpAtFound(t, playerName);
    }
  }

  /** When the name search turns left, what deletion in the left subtree trades, deletion in the whole tree trades. */
  lemma DeleteThroughLeft(t: ScoreNode, playerName: string, lost: multiset<ScoreRecord>, gained: multiset<ScoreRecord>)
    requires t.Node? && StrCmp(playerName, t.rec.playerName) < 0
    requires Records(DeleteScore(t.left, playerName)) + lost == Records(t.left) + gained
    requires Size(DeleteScore(t.left, playerName)) == Size(t.left) - 1
    ensures Records(DeleteScore(t, playerName)) + lost == Records(t) + gained
    ensures Size(DeleteScore(t, playerName)) == Size(t) - 1
  {
    assert DeleteScore(t, playerName) == Node(t.rec, DeleteScore(t.left, playerName), t.right);
    LeftTrades(t.rec, t.left, DeleteScore(t.left, playerName), t.right, lost, gained);
  }

  /** When the name search turns right, what deletion in the right subtree trades, deletion in the whole tree trades. */
  lemma DeleteThroughRight(t: ScoreNode, playerName: string, lost: multiset<ScoreRecord>, gained: multiset<ScoreRecord>)
    requires t.Node? && StrCmp(playerName, t.rec.playerName) > 0
    requires Records(DeleteScore(t.right, playerName)) + lost == Records(t.right) + gained
    requires Size(DeleteScore(t.right, playerName)) == Size(t.right) - 1
    ensures Records(DeleteScore(t, playerName)) + lost == Records(t) + gained
    ensures Size(DeleteScore(t, playerName)) == Size(t) - 1
  {
    assert DeleteScore(t, playerName) == Node(t.rec, t.left, DeleteScore(t.right, playerName));
    RightTrades(t.rec, t.left, t.right, DeleteScore(t.right, playerName), lost, gained);
  }

  /** The copy-up case at the node the name search stops at. */
  lemma CopyUpAtFound(t: ScoreNode, playerName: string)
    requires t.Node? && StrCmp(playerName, t.rec.playerName) == 0 && CopyUpHits(t)
    ensures Records(DeleteScore(t, playerName)) + CopyUpLost(t) == Records(t) + multiset{Successor(t)}
    ensures Size(DeleteScore(t, playerName)) == Size(t) - 1
  {
    var x, l, r := t.rec, t.left, t.right;
    var m := LeftMost(r);
    var r' := DeleteScore(r, m.playerName);
    DeleteFoundSplice(r, m.playerName);
    assert DeleteScore(t, playerName) == Node(m, l, r');
    CopyUpRecords(x, l, r, r', m, Found(r, m.playerName).rec);
  }

  /** The records of a node whose record is replaced by `m` and whose right subtree loses `g`. */
  lemma CopyUpRecords(x: ScoreRecord, l: ScoreNode, r: ScoreNode, r': ScoreNode, m: ScoreRecord, g: ScoreRecord)
    requires Records(r') + multiset{g} == Records(r) && Size(r') == Size(r) - 1
    ensures Records(Node(m, l, r')) + multiset{x} + multiset{g} == Records(Node(x, l, r)) + multiset{m}
    ensures Size(Node(m, l, r')) == Size(Node(x, l, r)) - 1
  {
    var a, b := Records(l), Records(r');
    calc {
      Records(Node(m, l, r')) + multiset{x} + multiset{g};
      a + multiset{m} + b + multiset{x} + multiset{g};
      { assert a + multiset{m} + b + multiset{x} + multiset{g} == a + multiset{x} + (b + multiset{g}) + multiset{m}; }
      a + multiset{x} + Records(r) + multiset{m};
    }
  }

  /** A node whose left subtree trades records `lost` for `gained` trades them itself, and loses a node with it. */
  lemma LeftTrades(x: ScoreRecord, c: ScoreNode, c': ScoreNode, r: ScoreNode, lost: multiset<ScoreRecord>, gained: multiset<ScoreRecord>)
    requires Records(c') + lost == Records(c) + gained && Size(c') == Size(c) - 1
    ensures Records(Node(x, c', r)) + lost == Records(Node(x, c, r)) + gained
    ensures Size(Node(x, c', r)) == Size(Node(x, c, r)) - 1
  {
    TradeThrough(Records(c'), Records(c), multiset{x}, Records(r), lost, gained);
  }

  /** A trade in the first part of a three-part union is a trade of the whole union. */
  lemma TradeThrough<T>(a': multiset<T>, a: multiset<T>, s: multiset<T>, b: multiset<T>, lost: multiset<T>, gained: multiset<T>)
    requires a' + lost == a + gained
    ensures a' + s + b + lost == a + s + b + gained
  {
    forall y ensures (a' + s + b + lost)[y] == (a + s + b + gained)[y] {
      assert (a' + lost)[y] == (a + gained)[y];
    }
  }



  /** A node whose right subtree trades records `lost` for `gained` trades them itself, and loses a node with it. */
  lemma RightTrades(x: ScoreRecord, l: ScoreNode, c: ScoreNode, c': ScoreNode, lost: multiset<ScoreRecord>, gained: multiset<ScoreRecord>)
    requires Records(c') + lost == Records(c) + gained && Size(c') == Size(c) - 1
    ensures Records(Node(x, l, c')) + lost == Records(Node(x, l, c)) + gained
    ensures Size(Node(x, l, c')) == Size(Node(x, l, c)) - 1
  {
    var a, b := Records(l), Records(c');
    calc {
      Records(Node(x, l, c')) + lost;
      a + multiset{x} + (b + lost);
      a + multiset{x} + (Records(c) + gained);
      Records(Node(x, l, c)) + gained;
    }
  }

  /** Deleting "m", which has two children, copies its successor "n" up and removes "n" from the right subtree. */
  lemma DeleteCopiesSuccessorUp()
    ensures DeleteScore(Node(ScoreRecord("m", 10, 0), Node(ScoreRecord("a", 5, 0), Nil, Nil), Node(ScoreRecord("n", 20, 0), Nil, Nil)), "m")
         == Node(ScoreRecord("n", 20, 0), Node(ScoreRecord("a", 5, 0), Nil, Nil), Nil)
  {
    assert StrCmp("m", "m") == 0;
    assert StrCmp("n", "n") == 0;
  }

  /** Deleting a name that no record carries leaves the tree, and so both walks, unchanged. */
  lemma DeleteAbsent(t: ScoreNode, playerName: string)
    requires forall x :: x in Records(t) ==> x.playerName != playerName
    ensures DeleteScore(t, playerName) == t
    ensures InorderTraversal(DeleteScore(t, playerName)) == InorderTraversal(t)
  {
    if OnSearchPath(t, playerName) {
      SearchPathFindsName(t, playerName);
    }
    DeleteOffPath(t, playerName);
  }

  /** A player present in the ledger is not found when the name search turns the other way. */
  lemma DeleteMissesPresentName()
    ensures var t := Node(ScoreRecord("bob", 10, 1), Nil, Node(ScoreRecord("amy", 20, 2), Nil, Nil));
      ScoreRecord("amy", 20, 2) in Records(t) && DeleteScore(t, "amy") == t
  {
    assert StrCmp("amy", "bob") == -1;
  }

  /** The right subtree of the duplication example: its minimum is "z", and the name search for "z" misses it. */
  lemma DuplicateExampleRight()
    ensures var right := Node(ScoreRecord("b", 20, 0), Node(ScoreRecord("z", 15, 0), Nil, Nil), Nil);
      LeftMost(right) == ScoreRecord("z", 15, 0) && DeleteScore(right, "z") == right
  {
    assert StrCmp("z", "b") == 1;
  }

  /**
   * With two children, the record copied up can survive in the right
   * subtree when the name search there misses it: the deleted record is
   * gone but the node count stays the same and the copied record appears twice.
   */
  lemma DeleteCanDuplicate()
    ensures var t := Node(ScoreRecord("m", 10, 0),
                          Node(ScoreRecord("a", 5, 0), Nil, Nil),
                          Node(ScoreRecord("b", 20, 0), Node(ScoreRecord("z", 15, 0), Nil, Nil), Nil));
      var d := DeleteScore(t, "m");
      Size(d) == Size(t) && ScoreRecord("m", 10, 0) !in Records(d) && Records(d)[ScoreRecord("z", 15, 0)] == 2
  {
    DuplicateExampleTop();
  }

  /** In the duplication example the record "z" is copied up and the right subtree is kept whole. */
  lemma DuplicateExampleTop()
    ensures var right := Node(ScoreRecord("b", 20, 0), Node(ScoreRecord("z", 15, 0), Nil, Nil), Nil);
      var left := Node(ScoreRecord("a", 5, 0), Nil, Nil);
      DeleteScore(Node(ScoreRecord("m", 10, 0), left, right), "m") == Node(ScoreRecord("z", 15, 0), left, right)
  {
    DuplicateExampleRight();
    assert StrCmp("m", "m") == 0;
  }
}
