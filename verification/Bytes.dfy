/** Go strings, as far as the control plane looks inside them.

    Names, label keys and values, selectors and continue tokens are byte strings: the store orders
    them, splits them and encodes them byte by byte.  Text that is only ever compared for equality
    (uids, resource versions, condition types, messages) is an ordinary `string`. */
module Bytes {
  type Byte = c: char | c as int < 256 witness 'a'

  type Str = seq<Byte>

  const NUL: Byte := '\0'

  /** The byte-wise lexicographic order: Go's `<` on strings and SQLite's BINARY collation. */
  predicate Less(a: Str, b: Str) {
    if b == [] then false
    else if a == [] then true
    else a[0] < b[0] || (a[0] == b[0] && Less(a[1..], b[1..]))
  }

  lemma {:induction false} LessIrreflexive(a: Str)
    ensures !Less(a, a)
  {
    if a == [] {
    } else {
      LessIrreflexive(a[1..]);
    }
  }

  lemma {:induction false} LessTransitive(a: Str, b: Str, c: Str)
    requires Less(a, b) && Less(b, c)
    ensures Less(a, c)
  {
    if a == [] {
    } else if a[0] == b[0] && b[0] == c[0] {
      LessTransitive(a[1..], b[1..], c[1..]);
    }
  }

  lemma {:induction false} LessTotal(a: Str, b: Str)
    ensures a == b || Less(a, b) || Less(b, a)
  {
    if a == [] || b == [] {
    } else if a[0] == b[0] {
      LessTotal(a[1..], b[1..]);
      if a[1..] == b[1..] {
        assert a == [a[0]] + a[1..] && b == [b[0]] + b[1..];
      }
    }
  }

  lemma {:induction false} PrefixLess(a: Str, b: Str)
    requires |a| < |b| && a == b[..|a|]
    ensures Less(a, b)
  {
    if a != [] {
      assert a[1..] == b[1..][..|a| - 1];
      PrefixLess(a[1..], b[1..]);
    }
  }

  /** The first string ends where the second goes on, or has the smaller byte where they first differ. */
  ghost predicate Precedes(a: Str, b: Str) {
    exists i: nat :: DiffersAt(a, b, i)
  }

  predicate DiffersAt(a: Str, b: Str, i: nat) {
    i <= |a| && i < |b| && a[..i] == b[..i] && (i == |a| || a[i] as int < b[i] as int)
  }

  /** The order compares strings byte by byte, smaller bytes first, and a prefix before what extends it. */
  lemma {:induction false} LessExactly(a: Str, b: Str)
    ensures Less(a, b) <==> Precedes(a, b)
  {
    if a == [] || b == [] {
      assert b != [] && a == [] ==> DiffersAt(a, b, 0);
    } else {
      LessExactly(a[1..], b[1..]);
      if Less(a, b) {
        if a[0] == b[0] {
          var i: nat :| DiffersAt(a[1..], b[1..], i);
          assert a[..i + 1] == [a[0]] + a[1..][..i] && b[..i + 1] == [b[0]] + b[1..][..i];
          assert DiffersAt(a, b, i + 1);
        } else {
          assert DiffersAt(a, b, 0);
        }
      }
      if i: nat :| DiffersAt(a, b, i) {
        if i > 0 {
          assert a[0] == a[..i][0] == b[..i][0] == b[0];
          assert a[1..][..i - 1] == a[..i][1..] == b[..i][1..] == b[1..][..i - 1];
          assert DiffersAt(a[1..], b[1..], i - 1);
        }
      }
    }
  }

  // ----- decimal text of a counter -----

  function Digit(d: nat): char
    requires d < 10
  {
    ('0' as int + d) as char
  }

  /** The decimal text of a stored counter. */
  function Decimal(n: nat): string {
    if n < 10 then [Digit(n)] else Decimal(n / 10) + [Digit(n % 10)]
  }

  function DecimalValue(s: string): int {
    if s == [] then 0 else DecimalValue(s[..|s| - 1]) * 10 + (s[|s| - 1] as int - '0' as int)
  }

  lemma {:induction false} DecimalRoundTrip(n: nat)
    ensures DecimalValue(Decimal(n)) == n
    ensures Decimal(n) != ""
  {
    if n >= 10 {
      DecimalRoundTrip(n / 10);
      var s := Decimal(n);
      assert s[..|s| - 1] == Decimal(n / 10);
    } else {
      assert Decimal(n)[..0] == [];
    }
  }

  /** Decimal text is digits, without a leading zero unless it is zero. */
  lemma {:induction false} DecimalIsDigits(n: nat)
    ensures Decimal(n) != "" && forall i :: 0 <= i < |Decimal(n)| ==> '0' <= Decimal(n)[i] <= '9'
    ensures Decimal(n)[0] == '0' <==> n == 0
  {
    if n >= 10 {
      DecimalIsDigits(n / 10);
    }
  }

  /** Two counters have the same decimal text only when they are equal, so comparing resource
      versions as text is comparing the stored counters. */
  lemma DecimalInjective(m: nat, n: nat)
    ensures Decimal(m) == Decimal(n) <==> m == n
  {
    DecimalRoundTrip(m);
    DecimalRoundTrip(n);
  }
}
