/** The canonical order record produced for one spreadsheet row. */
module Orders {

  /**
   * The six output columns, in output order: order number, recipient name,
   * contact phone (canonical form), country, delivery address and the name
   * of the file the row came from.
   */
  datatype OrderRecord = OrderRecord(
    orderId: string,
    recipient: string,
    phone: string,
    country: string,
    address: string,
    sourceFile: string
  )

  /** The set of phone numbers occurring in a record list. */
  function Phones(s: seq<OrderRecord>): set<string> {
    set i | 0 <= i < |s| :: s[i].phone
  }

  /** The phones of a non-empty list: the first record's phone and the phones of the rest. */
  lemma PhonesCons(s: seq<OrderRecord>)
    requires s != []
    ensures Phones(s) == {s[0].phone} + Phones(s[1..])
  {
    forall p | p in Phones(s)
      ensures p in {s[0].phone} + Phones(s[1..])
    {
      var i :| 0 <= i < |s| && s[i].phone == p;
      if i > 0 {
        assert s[1..][i - 1].phone == p;
      }
    }
    forall p | p in Phones(s[1..])
      ensures p in Phones(s)
    {
      var i :| 0 <= i < |s[1..]| && s[1..][i].phone == p;
      assert s[i + 1].phone == p;
    }
  }

  /** The phones of two lists one after another: the phones of each. */
  lemma PhonesAppend(a: seq<OrderRecord>, b: seq<OrderRecord>)
    ensures Phones(a + b) == Phones(a) + Phones(b)
  {
    forall p | p in Phones(a + b)
      ensures p in Phones(a) + Phones(b)
    {
      var i :| 0 <= i < |a + b| && (a + b)[i].phone == p;
      if i >= |a| {
        assert b[i - |a|].phone == p;
      }
    }
    forall p | p in Phones(a) + Phones(b)
      ensures p in Phones(a + b)
    {
      if p in Phones(a) {
        var i :| 0 <= i < |a| && a[i].phone == p;
        assert (a + b)[i].phone == p;
      } else {
        var i :| 0 <= i < |b| && b[i].phone == p;
        assert (a + b)[|a| + i].phone == p;
      }
    }
  }
}
