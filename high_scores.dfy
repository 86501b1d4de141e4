/**
 * The high-score table (src/utils/highScoresUtils.js): a list of at most ten
 * entries kept in the browser's storage under one key, sorted by score with
 * the highest first.
 *
 * The storage is a class with the one stored item as a field and two flags
 * saying whether reading or writing the storage raises an error. The JSON
 * text is modelled by the array of entries it encodes, or by `Malformed`
 * when it does not parse; stored text that parses to something other than
 * an array of entries with numeric scores is not represented.
 */
module HighScores {

  const MAX_HIGH_SCORES: int := 10

  /** One row of the table; the date is the ISO string the caller supplies. */
  datatype ScoreEntry = ScoreEntry(playerName: string, score: int, date: string)

  /** What storage holds under the high-score key: nothing, unparsable text, or an array of entries. */
  datatype StoredItem = Absent | Malformed | Stored(entries: seq<ScoreEntry>)

  /** Highest score first. */
  ghost predicate SortedDesc(s: seq<ScoreEntry>)
  {
    forall i, j :: 0 <= i < j < |s| ==> s[i].score >= s[j].score
  }

  // ---------------------------------------------------------------------
  // Reading
  // ---------------------------------------------------------------------

  /**
   * The list `getHighScores` reads: `[]` when reading fails, when nothing is
   * stored or when the stored text does not parse; the stored list otherwise.
   */
  function ReadEntries(item: StoredItem, readFails: bool): (list: seq<ScoreEntry>)
    ensures readFails || !item.Stored? ==> list == []
    ensures !readFails && item.Stored? ==> list == item.entries
  {
    if readFails then []
    else match item
      case Stored(entries) => entries
      case _ => []
  }

  // ---------------------------------------------------------------------
  // Stable descending sort (Array.prototype.sort with `b.score - a.score`)
  // ---------------------------------------------------------------------

  /**
   * Places e in a descending list after every entry whose score is at least
   * e's, which is where a stable sort puts the entry that came last.
   */
  function InsertDesc(s: seq<ScoreEntry>, e: ScoreEntry): (r: seq<ScoreEntry>)
    ensures |r| == |s| + 1
  {
    if s == [] then [e]
    else if s[0].score >= e.score then [s[0]] + InsertDesc(s[1..], e)
    else [e] + s
  }

  /** Insertion adds exactly the one entry. */
  lemma {:induction false} InsertDescPermutes(s: seq<ScoreEntry>, e: ScoreEntry)
    ensures multiset(InsertDesc(s, e)) == multiset(s) + multiset{e}
  {
    if s != [] {
      assert s == [s[0]] + s[1..];
      if s[0].score >= e.score {
        InsertDescPermutes(s[1..], e);
      }
    }
  }

  /** No entry of the result scores above a bound that s and e both respect. */
  lemma {:induction false} InsertDescBounded(s: seq<ScoreEntry>, e: ScoreEntry, bound: int)
    requires forall i :: 0 <= i < |s| ==> s[i].score <= bound
    requires e.score <= bound
    ensures forall j :: 0 <= j < |InsertDesc(s, e)| ==> InsertDesc(s, e)[j].score <= bound
  {
    if s != [] && s[0].score >= e.score {
      InsertDescBounded(s[1..], e, bound);
      var r := InsertDesc(s, e);
      forall j | 0 <= j < |r| ensures r[j].score <= bound {
        if j > 0 {
          assert r[j] == InsertDesc(s[1..], e)[j - 1];
        }
      }
    }
  }

  /** A descending list with a head no lower than the rest of it. */
  lemma SortedCons(x: ScoreEntry, t: seq<ScoreEntry>)
    requires SortedDesc(t)
    requires forall j :: 0 <= j < |t| ==> t[j].score <= x.score
    ensures SortedDesc([x] + t)
  {
    var r := [x] + t;
    forall i, j | 0 <= i < j < |r| ensures r[i].score >= r[j].score {
      assert r[j] == t[j - 1];
      if i > 0 {
        assert r[i] == t[i - 1];
      }
    }
  }

  /** Inserting into a descending list keeps it descending. */
  lemma {:induction false} InsertDescKeepsOrder(s: seq<ScoreEntry>, e: ScoreEntry)
    requires SortedDesc(s)
    ensures SortedDesc(InsertDesc(s, e))
  {
    if s == [] {
    } else if s[0].score >= e.score {
      InsertDescKeepsOrder(s[1..], e);
      InsertDescBounded(s[1..], e, s[0].score);
      SortedCons(s[0], InsertDesc(s[1..], e));
    } else {
      SortedCons(e, s);
    }
  }

  /** Stable insertion sort, highest score first. */
  function SortDesc(s: seq<ScoreEntry>): (r: seq<ScoreEntry>)
    ensures |r| == |s|
    ensures multiset(r) == multiset(s)
    ensures SortedDesc(r)
  {
    if s == [] then []
    else
      var n := |s| - 1;
      assert s == s[..n] + [s[n]];
      InsertDescKeepsOrder(SortDesc(s[..n]), s[n]);
      InsertDescPermutes(SortDesc(s[..n]), s[n]);
      InsertDesc(SortDesc(s[..n]), s[n])
  }

  /** The first n entries, or all of them when there are fewer (`slice(0, n)`). */
  function Take(s: seq<ScoreEntry>, n: int): (r: seq<ScoreEntry>)
    requires n >= 0
    ensures |r| == if |s| < n then |s| else n
    ensures r == s[..|r|]
  {
    if |s| <= n then s else s[..n]
  }

  /** How many leading entries score at least e's: where a stable insertion puts e. */
  function InsertPos(s: seq<ScoreEntry>, e: ScoreEntry): (k: nat)
    ensures k <= |s|
  {
    if s == [] || s[0].score < e.score then 0 else 1 + InsertPos(s[1..], e)
  }

  /** The new entry lands right after the entries scoring at least as much and before the first lower one. */
  lemma InsertDescPosition(s: seq<ScoreEntry>, e: ScoreEntry)
    ensures InsertDesc(s, e) == s[..InsertPos(s, e)] + [e] + s[InsertPos(s, e)..]
    ensures forall i :: 0 <= i < InsertPos(s, e) ==> s[i].score >= e.score
    ensures InsertPos(s, e) < |s| ==> s[InsertPos(s, e)].score < e.score
  {
    InsertDescSplits(s, e);
    InsertPosScores(s, e);
  }

  /** Insertion splits the list at the insertion point. */
  lemma {:induction false} InsertDescSplits(s: seq<ScoreEntry>, e: ScoreEntry)
    ensures InsertDesc(s, e) == s[..InsertPos(s, e)] + [e] + s[InsertPos(s, e)..]
  {
    if s != [] && s[0].score >= e.score {
      var t := s[1..];
      var k := InsertPos(t, e);
      InsertDescSplits(t, e);
      assert InsertPos(s, e) == k + 1;
      calc {
        InsertDesc(s, e);
        [s[0]] + InsertDesc(t, e);
        [s[0]] + (t[..k] + [e] + t[k..]);
        { assert s[..k + 1] == [s[0]] + t[..k]; assert s[k + 1..] == t[k..]; }
        s[..k + 1] + [e] + s[k + 1..];
      }
    }
  }

  /** The entries before the insertion point score at least e's, and the one at it scores less. */
  lemma {:induction false} InsertPosScores(s: seq<ScoreEntry>, e: ScoreEntry)
    ensures forall i :: 0 <= i < InsertPos(s, e) ==> s[i].score >= e.score
    ensures InsertPos(s, e) < |s| ==> s[InsertPos(s, e)].score < e.score
  {
    if s != [] && s[0].score >= e.score {
      var t := s[1..];
      var k := InsertPos(t, e);
      InsertPosScores(t, e);
      assert InsertPos(s, e) == k + 1;
      if k + 1 < |s| {
        assert s[k + 1] == t[k];
      }
      forall i | 0 <= i < k + 1 ensures s[i].score >= e.score {
        if i > 0 {
          assert s[i] == t[i - 1];
        }
      }
    }
  }

  /** When every entry scores at least e's, e goes to the end. */
  lemma {:induction false} InsertDescAtEnd(s: seq<ScoreEntry>, e: ScoreEntry)
    requires forall i :: 0 <= i < |s| ==> s[i].score >= e.score
    ensures InsertDesc(s, e) == s + [e]
  {
    if s != [] {
      InsertDescAtEnd(s[1..], e);
      assert [s[0]] + (s[1..] + [e]) == s + [e];
    }
  }

  /** Sorting an already sorted list changes nothing: the sort is stable. */
  lemma {:induction false} SortDescOfSorted(s: seq<ScoreEntry>)
    requires SortedDesc(s)
    ensures SortDesc(s) == s
  {
    if s != [] {
      var n := |s| - 1;
      SortDescOfSorted(s[..n]);
      InsertDescAtEnd(s[..n], s[n]);
      assert s[..n] + [s[n]] == s;
    }
  }

  /** Appending one entry to a sorted list and sorting is inserting it. */
  lemma SortAppendedIsInsert(list: seq<ScoreEntry>, e: ScoreEntry)
    requires SortedDesc(list)
    ensures SortDesc(list + [e]) == InsertDesc(list, e)
  {
    assert (list + [e])[..|list|] == list;
    SortDescOfSorted(list);
  }

  // ---------------------------------------------------------------------
  // Saving and qualifying
  // ---------------------------------------------------------------------

  /** The list `saveHighScore` computes from the list it read: push, sort, keep the top ten. */
  function Saved(list: seq<ScoreEntry>, e: ScoreEntry): (r: seq<ScoreEntry>)
    ensures |r| <= MAX_HIGH_SCORES
    ensures |r| == if |list| < MAX_HIGH_SCORES then |list| + 1 else MAX_HIGH_SCORES
    ensures SortedDesc(r)
    ensures multiset(r) <= multiset(list) + multiset{e}
  {
    var sorted := SortDesc(list + [e]);
    var r := Take(sorted, MAX_HIGH_SCORES);
    assert sorted == r + sorted[|r|..];
    assert multiset(sorted) == multiset(r) + multiset(sorted[|r|..]);
    r
  }

  /** `isHighScore` over the list it read; the last entry's score stands for the lowest. */
  function Qualifies(list: seq<ScoreEntry>, score: int): (q: bool)
    ensures |list| < MAX_HIGH_SCORES ==> q
    ensures |list| >= MAX_HIGH_SCORES ==> (q <==> score > list[|list| - 1].score)
  {
    if |list| < MAX_HIGH_SCORES then true
    else score > list[|list| - 1].score
  }

  /** On a sorted list, the saved list is the old one with e inserted stably, cut to ten. */
  lemma SavedIsStableInsert(list: seq<ScoreEntry>, e: ScoreEntry)
    requires SortedDesc(list)
    ensures Saved(list, e) == Take(InsertDesc(list, e), MAX_HIGH_SCORES)
  {
    SortAppendedIsInsert(list, e);
  }

  /**
   * On a sorted table of at most ten entries, a qualifying score is kept:
   * the new entry appears in the saved list at a position where every
   * entry before it scores at least as much.
   */
  lemma QualifyingScoreIsKept(list: seq<ScoreEntry>, e: ScoreEntry)
    requires SortedDesc(list) && |list| <= MAX_HIGH_SCORES
    requires Qualifies(list, e.score)
    ensures InsertPos(list, e) < |Saved(list, e)| && Saved(list, e)[InsertPos(list, e)] == e
    ensures forall i :: 0 <= i < InsertPos(list, e) ==> Saved(list, e)[i] == list[i] && list[i].score >= e.score
  {
    SavedIsStableInsert(list, e);
    InsertDescPosition(list, e);
    var k := InsertPos(list, e);
    var ins := InsertDesc(list, e);
    if |list| == MAX_HIGH_SCORES {
      assert list[MAX_HIGH_SCORES - 1].score < e.score;
    }
    assert k < MAX_HIGH_SCORES;
    assert ins[k] == e;
    forall i | 0 <= i < k ensures ins[i] == list[i] {
      assert ins[i] == list[..k][i];
    }
  }

  /** On a full sorted table, a score that does not qualify leaves the table as it was. */
  lemma NonQualifyingScoreChangesNothing(list: seq<ScoreEntry>, e: ScoreEntry)
    requires SortedDesc(list) && |list| == MAX_HIGH_SCORES
    requires !Qualifies(list, e.score)
    ensures Saved(list, e) == list
  {
    SavedIsStableInsert(list, e);
    InsertDescAtEnd(list, e);
    assert (list + [e])[..MAX_HIGH_SCORES] == list;
  }

  /**
   * On a sorted table of at most ten entries, a score qualifies exactly when
   * saving it changes the table.
   */
  lemma QualifiesIffSavedChanges(list: seq<ScoreEntry>, e: ScoreEntry)
    requires SortedDesc(list) && |list| <= MAX_HIGH_SCORES
    ensures Qualifies(list, e.score) <==> Saved(list, e) != list
  {
    if |list| == MAX_HIGH_SCORES {
      if Qualifies(list, e.score) {
        QualifyingScoreIsKept(list, e);
        InsertDescPosition(list, e);
        var k := InsertPos(list, e);
        assert list[k].score < e.score;
        assert Saved(list, e)[k] != list[k];
      } else {
        NonQualifyingScoreChangesNothing(list, e);
      }
    }
  }

  // ---------------------------------------------------------------------
  // The storage
  // ---------------------------------------------------------------------

  /** What storage holds after `saveHighScore`: unchanged when the write fails. */
  function ItemAfterSave(item: StoredItem, readFails: bool, writeFails: bool, e: ScoreEntry): (after: StoredItem)
    ensures writeFails ==> after == item
    ensures !writeFails ==> after == Stored(Saved(ReadEntries(item, readFails), e))
  {
    if writeFails then item else Stored(Saved(ReadEntries(item, readFails), e))
  }

  /** The browser storage slot holding the table. */
  class HighScoreStore {
    var item: StoredItem
    /** Whether `getItem` raises. */
    var readFails: bool
    /** Whether `setItem` and `removeItem` raise. */
    var writeFails: bool

    constructor(item: StoredItem, readFails: bool, writeFails: bool)
      ensures this.item == item && this.readFails == readFails && this.writeFails == writeFails
    {
      this.item := item;
      this.readFails := readFails;
      this.writeFails := writeFails;
    }

    /** The stored list, or `[]` when reading fails or nothing readable is stored. */
    method GetHighScores() returns (list: seq<ScoreEntry>)
      ensures list == ReadEntries(item, readFails)
      ensures readFails || !item.Stored? ==> list == []
    {
      if readFails {
        return [];
      }
      match item {
        case Stored(entries) => list := entries;
        case _ => list := [];
      }
    }

    /**
     * Pushes the new entry onto the list read, sorts it, keeps the top ten
     * and writes it back; returns the written list, or `[]` and writes
     * nothing when the write fails. A failed read counts as an empty table.
     */
    method SaveHighScore(playerName: string, score: int, date: string) returns (r: seq<ScoreEntry>)
      modifies this
      ensures readFails == old(readFails) && writeFails == old(writeFails)
      ensures writeFails ==> r == [] && item == old(item)
      ensures !writeFails ==> r == Saved(ReadEntries(old(item), readFails), ScoreEntry(playerName, score, date))
      ensures !writeFails ==> item == Stored(r)
      ensures item == ItemAfterSave(old(item), readFails, writeFails, ScoreEntry(playerName, score, date))
      ensures |r| <= MAX_HIGH_SCORES && SortedDesc(r)
    {
      var highScores := GetHighScores();
      highScores := highScores + [ScoreEntry(playerName, score, date)];
      highScores := SortDesc(highScores);
      highScores := Take(highScores, MAX_HIGH_SCORES);
      if writeFails {
        return [];
      }
      item := Stored(highScores);
      r := highScores;
    }

    /** Removes the stored table; false, and nothing removed, when the storage raises. */
    method ClearHighScores() returns (ok: bool)
      modifies this
      ensures readFails == old(readFails) && writeFails == old(writeFails)
      ensures ok == !writeFails
      ensures item == if writeFails then old(item) else Absent
      ensures ok ==> ReadEntries(item, readFails) == []
    {
      if writeFails {
        return false;
      }
      item := Absent;
      ok := true;
    }

    /** Whether a score earns a place: fewer than ten stored, or above the last one. */
    method IsHighScore(score: int) returns (q: bool)
      ensures q == Qualifies(ReadEntries(item, readFails), score)
      ensures |ReadEntries(item, readFails)| < MAX_HIGH_SCORES ==> q
    {
      var highScores := GetHighScores();
      if |highScores| < MAX_HIGH_SCORES {
        return true;
      }
      var lowestScore := highScores[|highScores| - 1].score;
      q := score > lowestScore;
    }
  }
}
