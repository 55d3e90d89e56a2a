/**
 * The clue collection: a fixed array of MAX_CLUES slots of which the first
 * `clueCount` are in use, in insertion order. The count lives with the
 * caller; the operations that change it return the new count.
 *
 * The value of the collection is the sequence `clues[..clueCount]`;
 * `Added` and `Removed` say what appending and deleting do to it.
 */
module Clues {
  import opened CrosswordTypes

  /** The clue `addClue` stores: the given fields, not yet solved. */
  function NewClue(text: string, answer: string, row: int, col: int, direction: char, number: int): (c: Clue)
    ensures !c.solved
    ensures c.text == text && c.answer == answer && c.number == number
    ensures c.row == row && c.col == col && c.direction == direction
  {
    Clue(text, answer, row, col, direction, number, false)
  }

  /**
   * The index of the first clue listed under `number`, or -1 when no clue is.
   */
  function FindFirst(cs: seq<Clue>, number: int): (r: int)
    ensures -1 <= r < |cs|
    ensures r == -1 <==> forall k :: 0 <= k < |cs| ==> cs[k].number != number
    ensures 0 <= r ==> cs[r].number == number && forall k :: 0 <= k < r ==> cs[k].number != number
  {
    if cs == [] then -1
    else if cs[0].number == number then 0
    else
      var r := FindFirst(cs[1..], number);
      if r == -1 then -1 else r + 1
  }

  /** The collection after appending `c`: unchanged when it is already full. */
  function Added(cs: seq<Clue>, c: Clue): (r: seq<Clue>)
    ensures |cs| <= MAX_CLUES ==> |r| <= MAX_CLUES
    ensures |cs| <= |r| <= |cs| + 1 && r[..|cs|] == cs
  {
    if |cs| >= MAX_CLUES then cs else cs + [c]
  }

  /**
   * The collection after deleting by `number`: the first clue listed under
   * it is cut out and the rest close up; unchanged when there is none.
   */
  function Removed(cs: seq<Clue>, number: int): (r: seq<Clue>)
    ensures |r| == |cs| || |r| == |cs| - 1
    ensures r == cs <==> forall k :: 0 <= k < |cs| ==> cs[k].number != number
  {
    var f := FindFirst(cs, number);
    if f == -1 then cs else cs[..f] + cs[f + 1..]
  }

  /** Appending to a full collection changes nothing; otherwise the clue goes last and the rest stay. */
  lemma AddedShape(cs: seq<Clue>, c: Clue)
    ensures |cs| >= MAX_CLUES ==> Added(cs, c) == cs
    ensures |cs| < MAX_CLUES ==>
      |Added(cs, c)| == |cs| + 1 && Added(cs, c)[..|cs|] == cs && Added(cs, c)[|cs|] == c
  {
  }

  /** The collection after a run of appends, in call order. */
  function AddAll(cs: seq<Clue>, news: seq<Clue>): seq<Clue>
    decreases |news|
  {
    if news == [] then cs else AddAll(Added(cs, news[0]), news[1..])
  }

  /** Appends that stay within capacity keep every clue, in insertion order. */
  lemma {:induction false} AddAllInOrder(cs: seq<Clue>, news: seq<Clue>)
    requires |cs| + |news| <= MAX_CLUES
    ensures AddAll(cs, news) == cs + news
    decreases |news|
  {
    if news != [] {
      AddAllInOrder(cs + [news[0]], news[1..]);
      assert cs + [news[0]] + news[1..] == cs + news;
    }
  }

  /**
   * However many appends are made, the collection never exceeds MAX_CLUES,
   * and the clues already present are never disturbed.
   */
  lemma {:induction false} AddAllBounded(cs: seq<Clue>, news: seq<Clue>)
    requires |cs| <= MAX_CLUES
    ensures |AddAll(cs, news)| <= MAX_CLUES
    ensures |cs| <= |AddAll(cs, news)| && AddAll(cs, news)[..|cs|] == cs
    decreases |news|
  {
    if news != [] {
      var next := Added(cs, news[0]);
      AddAllBounded(next, news[1..]);
      assert next[..|cs|] == cs;
      assert AddAll(cs, news)[..|cs|] == AddAll(cs, news)[..|next|][..|cs|];
    }
  }

  /** Deleting a number no clue is listed under changes nothing. */
  lemma RemovedAbsent(cs: seq<Clue>, number: int)
    requires forall k :: 0 <= k < |cs| ==> cs[k].number != number
    ensures Removed(cs, number) == cs
  {
  }

  /**
   * Deleting a number that is listed cuts out exactly its first clue: the
   * clues before it stay where they were and those after it move down by one.
   */
  lemma RemovedShape(cs: seq<Clue>, number: int)
    requires exists k :: 0 <= k < |cs| && cs[k].number == number
    ensures var f, r := FindFirst(cs, number), Removed(cs, number);
      0 <= f < |cs| && |r| == |cs| - 1 &&
      (forall i :: 0 <= i < f ==> r[i] == cs[i]) &&
      (forall i :: f <= i < |r| ==> r[i] == cs[i + 1])
  {
    var f := FindFirst(cs, number);
    assert f != -1;
    var r := cs[..f] + cs[f + 1..];
    assert Removed(cs, number) == r;
    forall i | f <= i < |r|
      ensures r[i] == cs[i + 1]
    {
      assert r[i] == cs[f + 1..][i - f];
    }
  }

  /** Deleting takes exactly one clue, one listed under the number, out of the collection. */
  lemma RemovedOne(cs: seq<Clue>, number: int)
    requires exists k :: 0 <= k < |cs| && cs[k].number == number
    ensures var f := FindFirst(cs, number);
      0 <= f < |cs| && cs[f].number == number &&
      multiset(Removed(cs, number)) + multiset{cs[f]} == multiset(cs)
  {
    var f := FindFirst(cs, number);
    assert f != -1;
    assert Removed(cs, number) == cs[..f] + cs[f + 1..];
    CutOne(cs, f);
  }

  /** Cutting out position `f` takes exactly the element there out of the multiset. */
  lemma CutOne(s: seq<Clue>, f: int)
    requires 0 <= f < |s|
    ensures multiset(s[..f] + s[f + 1..]) + multiset{s[f]} == multiset(s)
  {
    assert s == s[..f] + ([s[f]] + s[f + 1..]);
  }

  /** The clues of one direction, in collection order: how the clue list is presented. */
  function InDirection(cs: seq<Clue>, direction: char): (r: seq<Clue>)
    ensures forall k :: 0 <= k < |r| ==> r[k].direction == direction
    ensures multiset(r) <= multiset(cs)
    ensures |r| <= |cs|
  {
    if cs == [] then []
    else
      assert cs == [cs[0]] + cs[1..];
      (if cs[0].direction == direction then [cs[0]] else []) + InDirection(cs[1..], direction)
  }

  /** The listing of a table that starts with `c`. */
  lemma InDirectionCons(c: Clue, cs: seq<Clue>, direction: char)
    ensures InDirection([c] + cs, direction) == (if c.direction == direction then [c] else []) + InDirection(cs, direction)
  {
    assert ([c] + cs)[0] == c && ([c] + cs)[1..] == cs;
  }

  /** Listing keeps table order: a clue appended to the table comes last in its direction's listing. */
  lemma {:induction false} InDirectionAppend(cs: seq<Clue>, c: Clue, direction: char)
    ensures InDirection(cs + [c], direction) == InDirection(cs, direction) + (if c.direction == direction then [c] else [])
  {
    if cs == [] {
      assert [] + [c] == [c] + [];
      InDirectionCons(c, [], direction);
    } else {
      assert cs + [c] == [cs[0]] + (cs[1..] + [c]);
      InDirectionCons(cs[0], cs[1..] + [c], direction);
      InDirectionAppend(cs[1..], c, direction);
    }
  }

  /** Every clue of the direction is listed under it. */
  lemma {:induction false} InDirectionComplete(cs: seq<Clue>, direction: char)
    ensures forall k :: 0 <= k < |cs| && cs[k].direction == direction ==> cs[k] in InDirection(cs, direction)
  {
    if cs != [] {
      InDirectionComplete(cs[1..], direction);
      forall k | 0 <= k < |cs| && cs[k].direction == direction
        ensures cs[k] in InDirection(cs, direction)
      {
        if k > 0 {
          assert cs[k] == cs[1..][k - 1];
        }
      }
    }
  }

  /** Every clue is either across or down. */
  predicate Directed(cs: seq<Clue>) {
    forall k :: 0 <= k < |cs| ==> cs[k].direction == ACROSS || cs[k].direction == DOWN
  }

  /** Listing across clues, then down clues, shows every clue of a well-formed collection once. */
  lemma {:induction false} ListingCovers(cs: seq<Clue>)
    requires Directed(cs)
    ensures multiset(InDirection(cs, ACROSS)) + multiset(InDirection(cs, DOWN)) == multiset(cs)
  {
    if cs != [] {
      ListingCovers(cs[1..]);
      assert cs == [cs[0]] + cs[1..];
      InDirectionCons(cs[0], cs[1..], ACROSS);
      InDirectionCons(cs[0], cs[1..], DOWN);
    }
  }

  /** Search the used slots for the first clue listed under `clueNumber`; -1 when there is none. */
  method FindClue(clues: array<Clue>, clueCount: int, clueNumber: int) returns (found: int)
    requires 0 <= clueCount <= clues.Length
    ensures found == FindFirst(clues[..clueCount], clueNumber)
  {
    found := -1;
    var i := 0;
    while i < clueCount
      invariant 0 <= i <= clueCount
      invariant forall k :: 0 <= k < i ==> clues[k].number != clueNumber
    {
      if clues[i].number == clueNumber {
        found := i;
        break;
      }
      i := i + 1;
    }
  }

  /**
   * Store a new, unsolved clue in the first free slot and return the new
   * count; when MAX_CLUES slots are in use, change nothing.
   */
  method AddClue(clues: array<Clue>, clueCount: int, clueText: string, answer: string,
                 row: int, col: int, direction: char, number: int) returns (newCount: int)
    requires clues.Length == MAX_CLUES && 0 <= clueCount
    requires FitsBuffer(clueText, MAX_CLUE_LENGTH) && FitsBuffer(answer, MAX_WORD_LENGTH)
    modifies clues
    ensures newCount == if clueCount >= MAX_CLUES then clueCount else clueCount + 1
    ensures clues[..] == if clueCount >= MAX_CLUES then old(clues[..])
                         else old(clues[..])[clueCount := NewClue(clueText, answer, row, col, direction, number)]
    ensures clueCount <= MAX_CLUES ==>
      clues[..newCount] == Added(old(clues[..clueCount]), NewClue(clueText, answer, row, col, direction, number))
  {
    if clueCount >= MAX_CLUES {
      return clueCount;
    }
    clues[clueCount] := NewClue(clueText, answer, row, col, direction, number);
    newCount := clueCount + 1;
  }

  /**
   * Delete the first clue listed under `clueNumber` by shifting the later
   * clues down one slot, and return the new count; when no clue is listed
   * under it, change nothing. The slot that falls out of use keeps its old
   * content.
   */
  method DeleteClue(clues: array<Clue>, clueCount: int, clueNumber: int) returns (newCount: int)
    requires 0 <= clueCount <= clues.Length
    modifies clues
    ensures newCount == |Removed(old(clues[..clueCount]), clueNumber)|
    ensures 0 <= newCount <= clueCount
    ensures clues[..newCount] == Removed(old(clues[..clueCount]), clueNumber)
    ensures clues[newCount..] == old(clues[newCount..])
  {
    ghost var before := clues[..];
    ghost var cs := clues[..clueCount];
    var found := FindClue(clues, clueCount, clueNumber);
    if found == -1 {
      return clueCount;
    }
    var i := found;
    while i < clueCount - 1
      invariant found <= i <= clueCount - 1
      invariant forall k :: 0 <= k < found ==> clues[k] == before[k]
      invariant forall k :: found <= k < i ==> clues[k] == before[k + 1]
      invariant forall k :: i <= k < clues.Length ==> clues[k] == before[k]
    {
      clues[i] := clues[i + 1];
      i := i + 1;
    }
    newCount := clueCount - 1;
    RemovedShape(cs, clueNumber);
    ghost var r := Removed(cs, clueNumber);
    assert clues[..newCount] == r by {
      forall k | 0 <= k < newCount
        ensures clues[k] == r[k]
      {
        if k < found {
          assert r[k] == cs[k];
        } else {
          assert r[k] == cs[k + 1];
        }
      }
    }
    assert clues[newCount..] == before[newCount..];
  }
}
