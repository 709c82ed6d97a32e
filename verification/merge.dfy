/**
 * Merging (`pd.concat` followed by `drop_duplicates(subset=phone, keep='last')`):
 * the per-file record lists are joined in discovery order and, for every phone
 * number, only its last record survives, the survivors keeping their order.
 */
module Merge {
  import opened Orders

  /** `pd.concat(frames, ignore_index=True)`: the frames one after another. */
  function Concat(frames: seq<seq<OrderRecord>>): (r: seq<OrderRecord>)
    ensures forall f, k :: 0 <= f < |frames| && 0 <= k < |frames[f]| ==> frames[f][k] in r
    ensures |frames| == 1 ==> r == frames[0]
  {
    if frames == [] then []
    else
      var rest := Concat(frames[1..]);
      assert forall f :: 0 < f < |frames| ==> frames[f] == frames[1..][f - 1];
      frames[0] + rest
  }

  /** Concatenation splits along any division of the frame list. */
  lemma {:induction false} ConcatAppend(a: seq<seq<OrderRecord>>, b: seq<seq<OrderRecord>>)
    ensures Concat(a + b) == Concat(a) + Concat(b)
  {
    if a == [] {
      assert a + b == b;
    } else {
      assert (a + b)[0] == a[0];
      assert (a + b)[1..] == a[1..] + b;
      ConcatAppend(a[1..], b);
    }
  }

  /** Every record of the concatenation belongs to one of the frames. */
  lemma {:induction false} ConcatMembers(frames: seq<seq<OrderRecord>>, x: OrderRecord)
    requires x in Concat(frames)
    ensures exists f :: 0 <= f < |frames| && x in frames[f]
  {
    if x in frames[0] {
      assert x in frames[0];
    } else {
      ConcatMembers(frames[1..], x);
      var f :| 0 <= f < |frames[1..]| && x in frames[1..][f];
      assert x in frames[f + 1];
    }
  }

  /** The concatenation is empty exactly when every frame is. */
  lemma {:induction false} ConcatEmpty(frames: seq<seq<OrderRecord>>)
    ensures Concat(frames) == [] <==> forall f :: 0 <= f < |frames| ==> frames[f] == []
  {
    if frames != [] {
      ConcatEmpty(frames[1..]);
      assert forall f :: 0 < f < |frames| ==> frames[f] == frames[1..][f - 1];
    }
  }

  /** The frames kept by `if not df.empty`: the non-empty ones, in order. */
  function NonEmpty(frames: seq<seq<OrderRecord>>): (r: seq<seq<OrderRecord>>)
    ensures |r| <= |frames|
    ensures forall k :: 0 <= k < |r| ==> r[k] != [] && r[k] in frames
  {
    if frames == [] then []
    else if frames[0] == [] then NonEmpty(frames[1..])
    else [frames[0]] + NonEmpty(frames[1..])
  }

  /** Filtering out empty frames splits along any division of the frame list. */
  lemma {:induction false} NonEmptyAppend(a: seq<seq<OrderRecord>>, b: seq<seq<OrderRecord>>)
    ensures NonEmpty(a + b) == NonEmpty(a) + NonEmpty(b)
  {
    if a == [] {
      assert a + b == b;
    } else {
      assert (a + b)[0] == a[0];
      assert (a + b)[1..] == a[1..] + b;
      NonEmptyAppend(a[1..], b);
    }
  }

  /** Leaving out the empty frames changes nothing in the concatenation. */
  lemma {:induction false} ConcatNonEmpty(frames: seq<seq<OrderRecord>>)
    ensures Concat(NonEmpty(frames)) == Concat(frames)
    ensures NonEmpty(frames) == [] <==> Concat(frames) == []
  {
    if frames != [] {
      ConcatNonEmpty(frames[1..]);
      if frames[0] != [] {
        var rest := NonEmpty(frames[1..]);
        assert ([frames[0]] + rest)[0] == frames[0];
        assert ([frames[0]] + rest)[1..] == rest;
      }
    }
  }

  /** No phone number occurs twice. */
  predicate DistinctPhones(s: seq<OrderRecord>) {
    forall a, b :: 0 <= a < b < |s| ==> s[a].phone != s[b].phone
  }

  /**
   * The position of the last record carrying phone `p`: the record
   * `keep='last'` retains for that number.
   */
  function LastIndex(s: seq<OrderRecord>, p: string): (i: nat)
    requires p in Phones(s)
    ensures i < |s| && s[i].phone == p
    ensures forall j :: i < j < |s| ==> s[j].phone != p
  {
    if s[0].phone == p && p !in Phones(s[1..]) then
      assert forall j :: 0 < j < |s| ==> s[j].phone == s[1..][j - 1].phone;
      0
    else
      1 + LastIndex(s[1..], p)
  }

  /**
   * `drop_duplicates(subset=phone, keep='last')`: a record is dropped exactly
   * when a later record has the same phone number.
   */
  function DropDuplicatesKeepLast(s: seq<OrderRecord>): (r: seq<OrderRecord>)
    ensures Phones(r) == Phones(s)
    ensures DistinctPhones(r)
    ensures |r| <= |s|
    ensures forall k :: 0 <= k < |r| ==> r[k] in s
  {
    if s == [] then []
    else
      PhonesCons(s);
      var rest := DropDuplicatesKeepLast(s[1..]);
      if s[0].phone in Phones(s[1..]) then rest
      else
        assert ([s[0]] + rest)[1..] == rest;
        PhonesCons([s[0]] + rest);
        [s[0]] + rest
  }

  /** Each survivor is the last record of its phone number in the input. */
  lemma {:induction false} KeepsLastOccurrence(s: seq<OrderRecord>)
    ensures forall k :: 0 <= k < |DropDuplicatesKeepLast(s)| ==>
      DropDuplicatesKeepLast(s)[k] == s[LastIndex(s, DropDuplicatesKeepLast(s)[k].phone)]
  {
    if s != [] {
      KeepsLastOccurrence(s[1..]);
      var r := DropDuplicatesKeepLast(s);
      var d := DropDuplicatesKeepLast(s[1..]);
      forall k | 0 <= k < |r|
        ensures r[k] == s[LastIndex(s, r[k].phone)]
      {
        if s[0].phone in Phones(s[1..]) {
          assert r[k] == d[k] && r[k].phone in Phones(s[1..]);
          assert LastIndex(s, r[k].phone) == 1 + LastIndex(s[1..], r[k].phone);
        } else if k > 0 {
          assert r[k] == d[k - 1] && r[k].phone in Phones(s[1..]);
          assert LastIndex(s, r[k].phone) == 1 + LastIndex(s[1..], r[k].phone);
        }
      }
    }
  }

  /** A phone that recurs after the first record has its last position in the rest of the list. */
  lemma LastIndexTail(s: seq<OrderRecord>, p: string)
    requires s != [] && p in Phones(s[1..])
    ensures p in Phones(s) && LastIndex(s, p) == 1 + LastIndex(s[1..], p)
  {
    PhonesCons(s);
  }

  /** Survivors of `s` are ordered by last occurrence. */
  ghost predicate OrderedByLastIndex(s: seq<OrderRecord>) {
    forall a, b :: 0 <= a < b < |DropDuplicatesKeepLast(s)| ==>
      LastIndex(s, DropDuplicatesKeepLast(s)[a].phone) < LastIndex(s, DropDuplicatesKeepLast(s)[b].phone)
  }

  /** The ordering step when the first record is dropped: the survivors are those of the rest. */
  lemma OrderedWhenDropped(s: seq<OrderRecord>)
    requires s != [] && s[0].phone in Phones(s[1..])
    requires OrderedByLastIndex(s[1..])
    ensures OrderedByLastIndex(s)
  {
    var r := DropDuplicatesKeepLast(s);
    var d := DropDuplicatesKeepLast(s[1..]);
    assert r == d;
    forall a, b | 0 <= a < b < |r|
      ensures LastIndex(s, r[a].phone) < LastIndex(s, r[b].phone)
    {
      assert d[a].phone in Phones(d) && d[b].phone in Phones(d);
      LastIndexTail(s, d[a].phone);
      LastIndexTail(s, d[b].phone);
    }
  }

  /** A survivor of the rest comes after the first record, which has position 0. */
  lemma SurvivorOfRestIsLater(s: seq<OrderRecord>, k: nat)
    requires s != [] && s[0].phone !in Phones(s[1..])
    requires k < |DropDuplicatesKeepLast(s[1..])|
    ensures DropDuplicatesKeepLast(s)[k + 1] == DropDuplicatesKeepLast(s[1..])[k]
    ensures LastIndex(s, DropDuplicatesKeepLast(s[1..])[k].phone) ==
      1 + LastIndex(s[1..], DropDuplicatesKeepLast(s[1..])[k].phone)
  {
    var d := DropDuplicatesKeepLast(s[1..]);
    assert DropDuplicatesKeepLast(s) == [s[0]] + d;
    assert d[k].phone in Phones(d);
    LastIndexTail(s, d[k].phone);
  }

  /** The ordering step when the first record survives: it comes first and has position 0. */
  lemma OrderedWhenKept(s: seq<OrderRecord>)
    requires s != [] && s[0].phone !in Phones(s[1..])
    requires OrderedByLastIndex(s[1..])
    ensures OrderedByLastIndex(s)
  {
    var r := DropDuplicatesKeepLast(s);
    var d := DropDuplicatesKeepLast(s[1..]);
    assert r[0] == s[0];
    forall a, b | 0 <= a < b < |r|
      ensures LastIndex(s, r[a].phone) < LastIndex(s, r[b].phone)
    {
      SurvivorOfRestIsLater(s, b - 1);
      if a > 0 {
        SurvivorOfRestIsLater(s, a - 1);
      }
    }
  }

  /** Survivors appear in the order of their last occurrences: the input's relative order. */
  lemma {:induction false} KeepsRelativeOrder(s: seq<OrderRecord>)
    ensures OrderedByLastIndex(s)
  {
    if s != [] {
      KeepsRelativeOrder(s[1..]);
      if s[0].phone in Phones(s[1..]) {
        OrderedWhenDropped(s);
      } else {
        OrderedWhenKept(s);
      }
    }
  }

  /** With distinct phone numbers, the first record's phone does not recur later. */
  lemma FirstPhoneUnique(s: seq<OrderRecord>)
    requires DistinctPhones(s) && s != []
    ensures s[0].phone !in Phones(s[1..])
    ensures DistinctPhones(s[1..])
  {
    forall p | p in Phones(s[1..])
      ensures p != s[0].phone
    {
      var j :| 0 <= j < |s[1..]| && s[1..][j].phone == p;
      assert s[j + 1].phone == p;
    }
  }

  /** A list whose phone numbers are already distinct is left as it is. */
  lemma {:induction false} DistinctUnchanged(s: seq<OrderRecord>)
    requires DistinctPhones(s)
    ensures DropDuplicatesKeepLast(s) == s
  {
    if s != [] {
      FirstPhoneUnique(s);
      DistinctUnchanged(s[1..]);
      assert s == [s[0]] + s[1..];
    }
  }

  /** Deduplicating twice is the same as deduplicating once. */
  lemma DropDuplicatesIdempotent(s: seq<OrderRecord>)
    ensures DropDuplicatesKeepLast(DropDuplicatesKeepLast(s)) == DropDuplicatesKeepLast(s)
  {
    DistinctUnchanged(DropDuplicatesKeepLast(s));
  }

  /** A list with distinct phone numbers has as many records as phone numbers. */
  lemma {:induction false} DistinctCount(s: seq<OrderRecord>)
    requires DistinctPhones(s)
    ensures |Phones(s)| == |s|
  {
    if s != [] {
      FirstPhoneUnique(s);
      DistinctCount(s[1..]);
      PhonesCons(s);
    }
  }

  /** The deduplicated count is the number of distinct phone numbers of the input. */
  lemma DropDuplicatesCount(s: seq<OrderRecord>)
    ensures |DropDuplicatesKeepLast(s)| == |Phones(s)|
  {
    DistinctCount(DropDuplicatesKeepLast(s));
  }

  /** Phones +1, +2, +1 in that order: two records remain, the second and the third. */
  lemma DropDuplicatesExample(x: OrderRecord, y: OrderRecord, z: OrderRecord)
    requires x.phone == "+1" && y.phone == "+2" && z.phone == "+1"
    ensures DropDuplicatesKeepLast([x, y, z]) == [y, z]
  {
    assert [x, y, z][1..] == [y, z];
    assert [y, z][1..] == [z];
    assert [z][1..] == [];
    PhonesCons([z]);
    PhonesCons([y, z]);
    PhonesCons([x, y, z]);
  }
}
