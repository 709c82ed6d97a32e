/**
 * Phone canonicalisation (`clean_phone_number`): five separator characters are
 * deleted, one after another, and a leading `+` is added when missing.
 */
module Phone {
  import opened Strings

  /** The characters deleted from a phone number, in the order the deletions run. */
  const Separators: seq<char> := ['-', ' ', '(', ')', ':']

  /** A phone number in canonical form: a leading `+` and no separator anywhere. */
  predicate IsCanonical(s: string) {
    && StartsWith(s, "+")
    && forall i :: 0 <= i < |s| ==> s[i] !in Separators
  }

  /** One `s.replace(c, '')`: every occurrence of `c` deleted, every other character kept. */
  function RemoveAll(s: string, c: char): (r: string)
    ensures c !in r
    ensures |r| <= |s|
  {
    if s == [] then []
    else if s[0] == c then RemoveAll(s[1..], c) else [s[0]] + RemoveAll(s[1..], c)
  }

  /**
   * Reference definition: one left-to-right pass that keeps exactly the
   * characters not in `cs`, in their original order.
   */
  function Drop(s: string, cs: seq<char>): (r: string)
    ensures forall i :: 0 <= i < |r| ==> r[i] !in cs
    ensures |r| <= |s|
  {
    if s == [] then []
    else if s[0] in cs then Drop(s[1..], cs) else [s[0]] + Drop(s[1..], cs)
  }

  /** Every character outside `cs` is kept as often as it occurs. */
  lemma {:induction false} DropKeepsCounts(s: string, cs: seq<char>, d: char)
    requires d !in cs
    ensures multiset(Drop(s, cs))[d] == multiset(s)[d]
  {
    if s != [] {
      assert s == [s[0]] + s[1..];
      DropKeepsCounts(s[1..], cs, d);
    }
  }

  /** Dropping characters commutes with concatenation, so the kept characters stay in order. */
  lemma {:induction false} DropAppend(a: string, b: string, cs: seq<char>)
    ensures Drop(a + b, cs) == Drop(a, cs) + Drop(b, cs)
  {
    if a == [] {
      assert a + b == b;
    } else {
      var ab := a + b;
      assert ab[0] == a[0];
      assert ab[1..] == a[1..] + b;
      DropAppend(a[1..], b, cs);
      if a[0] !in cs {
        calc {
          Drop(ab, cs);
          [a[0]] + Drop(a[1..] + b, cs);
          [a[0]] + (Drop(a[1..], cs) + Drop(b, cs));
          ([a[0]] + Drop(a[1..], cs)) + Drop(b, cs);
        }
      }
    }
  }

  /** A string holding none of `cs` is left unchanged. */
  lemma {:induction false} DropIdentity(s: string, cs: seq<char>)
    requires forall i :: 0 <= i < |s| ==> s[i] !in cs
    ensures Drop(s, cs) == s
  {
    if s != [] {
      DropIdentity(s[1..], cs);
    }
  }

  /** Deleting `c` first and then the characters of `cs` drops exactly `[c] + cs`. */
  lemma {:induction false} RemoveAllThenDrop(s: string, c: char, cs: seq<char>)
    ensures Drop(RemoveAll(s, c), cs) == Drop(s, [c] + cs)
  {
    if s != [] {
      RemoveAllThenDrop(s[1..], c, cs);
      if s[0] != c {
        var t := RemoveAll(s[1..], c);
        assert ([s[0]] + t)[0] == s[0];
        assert ([s[0]] + t)[1..] == t;
      }
    }
  }

  /**
   * The deletions of `cs` applied one after another, as the source's loop
   * applies them; the outcome equals the one-pass reference `Drop`.
   */
  function RemoveEach(s: string, cs: seq<char>): (r: string)
    ensures r == Drop(s, cs)
    decreases |cs|
  {
    if cs == [] then
      DropIdentity(s, cs);
      s
    else
      RemoveAllThenDrop(s, cs[0], cs[1..]);
      assert [cs[0]] + cs[1..] == cs;
      RemoveEach(RemoveAll(s, cs[0]), cs[1..])
  }

  /**
   * `clean_phone_number`: the five separators deleted in turn, then `+`
   * prepended unless the remainder already starts with `+`. The result is
   * the input with exactly the separators removed and at most one `+` added.
   */
  function Clean(raw: string): (r: string)
    ensures IsCanonical(r)
    ensures StartsWith(Drop(raw, Separators), "+") ==> r == Drop(raw, Separators)
    ensures !StartsWith(Drop(raw, Separators), "+") ==> r == "+" + Drop(raw, Separators)
  {
    var stripped := RemoveEach(raw, Separators);
    if StartsWith(stripped, "+") then stripped else "+" + stripped
  }

  /** Every character other than a separator or `+` occurs in the result exactly as often as in the input. */
  lemma CleanKeepsOtherCharacters(raw: string, d: char)
    requires d !in Separators && d != '+'
    ensures multiset(Clean(raw))[d] == multiset(raw)[d]
  {
    var kept := Drop(raw, Separators);
    DropKeepsCounts(raw, Separators, d);
    if !StartsWith(kept, "+") {
      assert multiset("+" + kept) == multiset{'+'} + multiset(kept);
    }
  }

  /** Canonical numbers are exactly the fixed points of `Clean`. */
  lemma CleanFixedPoints(s: string)
    ensures Clean(s) == s <==> IsCanonical(s)
  {
    if IsCanonical(s) {
      DropIdentity(s, Separators);
    }
  }

  /** Cleaning an already cleaned number changes nothing. */
  lemma CleanIdempotent(raw: string)
    ensures Clean(Clean(raw)) == Clean(raw)
  {
    CleanFixedPoints(Clean(raw));
  }

  /** Worked example: the separator goes and a `+` is added. */
  lemma CleanExampleAddsPlus()
    ensures Clean("1-2") == "+12"
  {
    assert Drop("1-2", Separators) == "12";
  }

  /** Worked example: the brackets go and the existing `+` is not doubled. */
  lemma CleanExampleKeepsPlus()
    ensures Clean("+(3)") == "+3"
  {
    assert Drop("+(3)", Separators) == "+3";
  }
}
