/** The two string operations the matching and the table parsing rest on:
    Python's substring test `needle in haystack` and `line.split(sep)`. */
module Text {

  /** `needle in haystack` on Python strings: some suffix of the haystack
      starts with the needle. The empty needle is in every string. */
  predicate Contains(needle: string, haystack: string)
    decreases |haystack|
  {
    needle <= haystack || (|haystack| > 0 && Contains(needle, haystack[1..]))
  }

  /** The needle occupies positions k .. k + |needle| - 1 of the haystack. */
  predicate OccursAt(needle: string, haystack: string, k: nat)
  {
    k + |needle| <= |haystack| && haystack[k..k + |needle|] == needle
  }

  /** Contains agrees with the positional reading of a substring. */
  lemma {:induction false} ContainsIffOccurs(needle: string, haystack: string)
    ensures Contains(needle, haystack) <==> exists k: nat :: OccursAt(needle, haystack, k)
    decreases |haystack|
  {
    if needle <= haystack {
      assert OccursAt(needle, haystack, 0);
    } else if |haystack| == 0 {
      assert needle != [];
    } else {
      var tail := haystack[1..];
      ContainsIffOccurs(needle, tail);
      if Contains(needle, tail) {
        var k: nat :| OccursAt(needle, tail, k);
        assert haystack[k + 1..k + 1 + |needle|] == tail[k..k + |needle|];
        assert OccursAt(needle, haystack, k + 1);
      }
      if k: nat :| OccursAt(needle, haystack, k) {
        if k > 0 {
          assert tail[k - 1..k - 1 + |needle|] == haystack[k..k + |needle|];
          assert OccursAt(needle, tail, k - 1);
        }
      }
    }
  }

  /** A needle whose first character is not in the haystack is not contained in it. */
  lemma FirstCharacterMissing(needle: string, haystack: string)
    requires needle != [] && needle[0] !in haystack
    ensures !Contains(needle, haystack)
  {
    ContainsIffOccurs(needle, haystack);
  }

  /** `s.split(sep)` in Python: the pieces between separators, always at least one. */
  function Split(s: string, sep: char): (fields: seq<string>)
    ensures |fields| >= 1
    decreases |s|
  {
    if s == [] then [[]]
    else
      var rest := Split(s[1..], sep);
      if s[0] == sep then [[]] + rest
      else [[s[0]] + rest[0]] + rest[1..]
  }

  /** `sep.join(fields)` in Python. */
  function Join(fields: seq<string>, sep: char): string
    requires |fields| >= 1
    decreases |fields|
  {
    if |fields| == 1 then fields[0] else fields[0] + [sep] + Join(fields[1..], sep)
  }

  /** Number of occurrences of `c` in `s`. */
  function Count(s: string, c: char): nat
    decreases |s|
  {
    if s == [] then 0 else (if s[0] == c then 1 else 0) + Count(s[1..], c)
  }

  /** No field of a split contains the separator. */
  lemma {:induction false} SplitFieldsFreeOfSeparator(s: string, sep: char)
    ensures forall i :: 0 <= i < |Split(s, sep)| ==> sep !in Split(s, sep)[i]
    decreases |s|
  {
    if s != [] {
      SplitFieldsFreeOfSeparator(s[1..], sep);
    }
  }

  /** Joining the pieces of a split gives back the line. */
  lemma {:induction false} JoinSplit(s: string, sep: char)
    ensures Join(Split(s, sep), sep) == s
    decreases |s|
  {
    if s != [] {
      var rest := Split(s[1..], sep);
      JoinSplit(s[1..], sep);
      if s[0] == sep {
        assert ([[]] + rest)[1..] == rest;
      } else if |rest| > 1 {
        assert ([[s[0]] + rest[0]] + rest[1..])[1..] == rest[1..];
      }
    }
  }

  /** A line with n separators splits into n + 1 fields. */
  lemma {:induction false} SplitLength(s: string, sep: char)
    ensures |Split(s, sep)| == Count(s, sep) + 1
    decreases |s|
  {
    if s != [] {
      SplitLength(s[1..], sep);
    }
  }

  /** Splitting a line that starts with a separator-free piece and a separator. */
  lemma {:induction false} SplitAfterPiece(a: string, b: string, sep: char)
    requires sep !in a
    ensures Split(a + [sep] + b, sep) == [a] + Split(b, sep)
    decreases |a|
  {
    var s := a + [sep] + b;
    if a == [] {
      assert s[0] == sep && s[1..] == b;
    } else {
      assert s[0] == a[0] && s[1..] == a[1..] + [sep] + b;
      SplitAfterPiece(a[1..], b, sep);
      assert [a[0]] + a[1..] == a;
    }
  }

  /** Splitting a separator-free string gives that string alone. */
  lemma {:induction false} SplitPiece(a: string, sep: char)
    requires sep !in a
    ensures Split(a, sep) == [a]
    decreases |a|
  {
    if a != [] {
      SplitPiece(a[1..], sep);
      assert [a[0]] + a[1..] == a;
    }
  }

  /** Splitting a join of separator-free fields gives back the fields. */
  lemma {:induction false} SplitJoin(fields: seq<string>, sep: char)
    requires |fields| >= 1
    requires forall i :: 0 <= i < |fields| ==> sep !in fields[i]
    ensures Split(Join(fields, sep), sep) == fields
    decreases |fields|
  {
    if |fields| == 1 {
      SplitPiece(fields[0], sep);
    } else {
      SplitJoin(fields[1..], sep);
      SplitAfterPiece(fields[0], Join(fields[1..], sep), sep);
      assert [fields[0]] + fields[1..] == fields;
    }
  }
}
