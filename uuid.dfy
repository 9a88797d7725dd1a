/** The registry of issued ids (src/utils/uuid.js): one set of column ids and one set of item ids.
    A new id is a prefix ("column" or "item") followed by the decimal form of a random suffix in
    0..99999; a suffix whose id is already registered is drawn again. */
module Uuid {

  /** `parseInt(Math.random() * 100000)` yields an integer in 0..99999. */
  const SuffixRange: nat := 100000

  const ColumnPrefix: string := "column"
  const ItemPrefix: string := "item"

  function DigitChar(d: nat): char
    requires d < 10
  {
    (48 + d) as char
  }

  /** The decimal text JavaScript produces for a non-negative integer: no sign, no leading zeros. */
  function NatToString(n: nat): (s: string)
    ensures 1 <= |s|
    ensures n < 10 <==> |s| == 1
  {
    if n < 10 then [DigitChar(n)] else NatToString(n / 10) + [DigitChar(n % 10)]
  }

  /** Different numbers have different decimal forms. */
  lemma {:induction false} NatToStringInjective(a: nat, b: nat)
    requires NatToString(a) == NatToString(b)
    ensures a == b
  {
    if a < 10 && b < 10 {
      assert DigitChar(a) == NatToString(a)[0] == NatToString(b)[0] == DigitChar(b);
    } else if a >= 10 && b >= 10 {
      var sa, sb := NatToString(a), NatToString(b);
      assert sa[|sa| - 1] == DigitChar(a % 10);
      assert sb[|sb| - 1] == DigitChar(b % 10);
      assert NatToString(a / 10) == sa[..|sa| - 1] == sb[..|sb| - 1] == NatToString(b / 10);
      NatToStringInjective(a / 10, b / 10);
    }
  }

  /** The id that suffix `n` gives under `prefix`, as `prefix + n` does in JavaScript. */
  function CandidateId(prefix: string, n: nat): string
  {
    prefix + NatToString(n)
  }

  lemma CandidateIdInjective(prefix: string, a: nat, b: nat)
    requires CandidateId(prefix, a) == CandidateId(prefix, b)
    ensures a == b
  {
    assert NatToString(a) == CandidateId(prefix, a)[|prefix|..] == CandidateId(prefix, b)[|prefix|..] == NatToString(b);
    NatToStringInjective(a, b);
  }

  /** Every id the generator can produce under `prefix`. */
  ghost function Candidates(prefix: string): set<string>
  {
    set n: nat | n < SuffixRange :: CandidateId(prefix, n)
  }

  /** The recursive retry returns only when some suffix is still free. */
  ghost predicate CanIssue(ids: set<string>, prefix: string)
  {
    exists n: nat :: n < SuffixRange && CandidateId(prefix, n) !in ids
  }

  lemma {:induction false} CandidatesBelow(prefix: string, k: nat)
    ensures |set n: nat | n < k :: CandidateId(prefix, n)| == k
  {
    if k > 0 {
      var below := set n: nat | n < k - 1 :: CandidateId(prefix, n);
      var upTo := set n: nat | n < k :: CandidateId(prefix, n);
      CandidatesBelow(prefix, k - 1);
      assert upTo == below + {CandidateId(prefix, k - 1)};
      if CandidateId(prefix, k - 1) in below {
        var m: nat :| m < k - 1 && CandidateId(prefix, m) == CandidateId(prefix, k - 1);
        CandidateIdInjective(prefix, m, k - 1);
      }
    }
  }

  /** Each registry can issue exactly 100000 distinct ids. */
  lemma CandidateCount(prefix: string)
    ensures |Candidates(prefix)| == SuffixRange
  {
    CandidatesBelow(prefix, SuffixRange);
  }

  /** Generation can go on exactly as long as not every candidate id is registered; in particular a registry
      with fewer than 100000 ids always has room. */
  lemma CanIssueIffNotFull(ids: set<string>, prefix: string)
    ensures CanIssue(ids, prefix) <==> !(Candidates(prefix) <= ids)
    ensures |ids| < SuffixRange ==> CanIssue(ids, prefix)
  {
    if !CanIssue(ids, prefix) {
      forall id | id in Candidates(prefix) ensures id in ids {
        var n: nat :| n < SuffixRange && id == CandidateId(prefix, n);
      }
      CandidateCount(prefix);
      var c := Candidates(prefix);
      var rest := ids - c;
      assert ids == rest + c && rest * c == {};
      assert |ids| == |rest| + |c|;
    } else {
      var n: nat :| n < SuffixRange && CandidateId(prefix, n) !in ids;
      assert CandidateId(prefix, n) in Candidates(prefix);
    }
  }

  /** A registry with fewer than 100000 ids can issue another. */
  lemma CanIssueWhenRoom(ids: set<string>, prefix: string)
    requires |ids| < SuffixRange
    ensures CanIssue(ids, prefix)
  {
    CanIssueIffNotFull(ids, prefix);
  }

  ghost function Elems(s: seq<string>): set<string>
  {
    set x | x in s
  }

  /** The two module-level sets of src/utils/uuid.js (index.js keeps an identical pair of its own). */
  class Registry {
    var columnIds: set<string>
    var itemIds: set<string>

    constructor ()
      ensures columnIds == {} && itemIds == {}
    {
      columnIds, itemIds := {}, {};
    }

    /** Draws suffixes until the column id is unregistered, then registers and returns it. The draw is an
        arbitrary choice; it terminates only while some candidate id is free. */
    method GenerateColumnId() returns (id: string)
      requires CanIssue(columnIds, ColumnPrefix)
      modifies this
      ensures id !in old(columnIds) && columnIds == old(columnIds) + {id}
      ensures id in Candidates(ColumnPrefix)
      ensures itemIds == old(itemIds)
    {
      var n: nat :| n < SuffixRange && CandidateId(ColumnPrefix, n) !in columnIds;
      id := CandidateId(ColumnPrefix, n);
      columnIds := columnIds + {id};
    }

    /** The same for item ids. */
    method GenerateColumnItemId() returns (id: string)
      requires CanIssue(itemIds, ItemPrefix)
      modifies this
      ensures id !in old(itemIds) && itemIds == old(itemIds) + {id}
      ensures id in Candidates(ItemPrefix)
      ensures columnIds == old(columnIds)
    {
      var n: nat :| n < SuffixRange && CandidateId(ItemPrefix, n) !in itemIds;
      id := CandidateId(ItemPrefix, n);
      itemIds := itemIds + {id};
    }

    /** Reserves restored column ids; ids already registered stay registered. */
    method InsertColumnIds(ids: seq<string>)
      modifies this
      ensures columnIds == old(columnIds) + Elems(ids)
      ensures itemIds == old(itemIds)
    {
      var i := 0;
      while i < |ids|
        invariant 0 <= i <= |ids|
        invariant columnIds == old(columnIds) + Elems(ids[..i])
        invariant itemIds == old(itemIds)
      {
        assert Elems(ids[..i + 1]) == Elems(ids[..i]) + {ids[i]} by {
          assert ids[..i + 1] == ids[..i] + [ids[i]];
        }
        columnIds := columnIds + {ids[i]};
        i := i + 1;
      }
      assert ids[..i] == ids;
    }

    /** Reserves restored item ids; ids already registered stay registered. */
    method InsertColumnItemIds(ids: seq<string>)
      modifies this
      ensures itemIds == old(itemIds) + Elems(ids)
      ensures columnIds == old(columnIds)
    {
      var i := 0;
      while i < |ids|
        invariant 0 <= i <= |ids|
        invariant itemIds == old(itemIds) + Elems(ids[..i])
        invariant columnIds == old(columnIds)
      {
        assert Elems(ids[..i + 1]) == Elems(ids[..i]) + {ids[i]} by {
          assert ids[..i + 1] == ids[..i] + [ids[i]];
        }
        itemIds := itemIds + {ids[i]};
        i := i + 1;
      }
      assert ids[..i] == ids;
    }

    method ResetAllSets()
      modifies this
      ensures columnIds == {} && itemIds == {}
    {
      columnIds := {};
      itemIds := {};
    }
  }
}
