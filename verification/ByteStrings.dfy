/** Byte strings and their lexicographic order, the order in which sled keeps its keys. */
module ByteStrings {
  type byte = x: int | 0 <= x < 256

  const U64_LIMIT: nat := 0x1_0000_0000_0000_0000

  /** Strict lexicographic order; a proper prefix comes first. */
  predicate BytesLess(a: seq<byte>, b: seq<byte>) {
    if b == [] then false
    else if a == [] then true
    else if a[0] == b[0] then BytesLess(a[1..], b[1..])
    else a[0] < b[0]
  }

  predicate BytesLeq(a: seq<byte>, b: seq<byte>) {
    a == b || BytesLess(a, b)
  }

  lemma {:induction false} LessIrreflexive(a: seq<byte>)
    ensures !BytesLess(a, a)
  {
    if a != [] { LessIrreflexive(a[1..]); }
  }

  lemma {:induction false} LessTransitive(a: seq<byte>, b: seq<byte>, c: seq<byte>)
    requires BytesLess(a, b) && BytesLess(b, c)
    ensures BytesLess(a, c)
  {
    if a != [] && a[0] == b[0] == c[0] { LessTransitive(a[1..], b[1..], c[1..]); }
  }

  lemma {:induction false} LessTotal(a: seq<byte>, b: seq<byte>)
    ensures BytesLess(a, b) || a == b || BytesLess(b, a)
  {
    if a != [] && b != [] && a[0] == b[0] {
      LessTotal(a[1..], b[1..]);
      assert a == [a[0]] + a[1..] && b == [b[0]] + b[1..];
    }
  }

  lemma LessAsymmetric(a: seq<byte>, b: seq<byte>)
    requires BytesLess(a, b)
    ensures !BytesLess(b, a) && a != b
  {
    LessIrreflexive(a);
    if BytesLess(b, a) { LessTransitive(a, b, a); }
  }

  /** A shared prefix does not influence the order. */
  lemma {:induction false} LessCommonPrefix(c: seq<byte>, a: seq<byte>, b: seq<byte>)
    ensures BytesLess(c + a, c + b) == BytesLess(a, b)
  {
    if c == [] {
      assert c + a == a && c + b == b;
    } else {
      assert (c + a)[1..] == c[1..] + a && (c + b)[1..] == c[1..] + b;
      LessCommonPrefix(c[1..], a, b);
    }
  }

  lemma {:induction false} LessPrefix(a: seq<byte>, b: seq<byte>)
    requires a <= b && a != b
    ensures BytesLess(a, b)
  {
    if a != [] {
      assert a == [a[0]] + a[1..] && b == [a[0]] + b[1..];
      LessPrefix(a[1..], b[1..]);
    }
  }

  /** `a` and `b` agree before position `i`, where `a` has the smaller byte. */
  predicate BytesForkBelow(a: seq<byte>, b: seq<byte>, i: nat) {
    i < |a| && i < |b| && a[..i] == b[..i] && a[i] < b[i]
  }

  lemma LessFork(a: seq<byte>, b: seq<byte>, i: nat)
    requires BytesForkBelow(a, b, i)
    ensures BytesLess(a, b)
  {
    assert a == a[..i] + a[i..] && b == a[..i] + b[i..];
    LessCommonPrefix(a[..i], a[i..], b[i..]);
  }

  /** The two ways of being smaller: proper prefix, or a fork. */
  lemma {:induction false} LessCases(a: seq<byte>, b: seq<byte>) returns (i: nat)
    requires BytesLess(a, b)
    ensures a <= b || BytesForkBelow(a, b, i)
  {
    i := 0;
    if a != [] && a[0] == b[0] {
      var j := LessCases(a[1..], b[1..]);
      if a[1..] <= b[1..] {
        assert a == [a[0]] + a[1..] && b == [a[0]] + b[1..];
      } else {
        i := j + 1;
        assert a[..i] == [a[0]] + a[1..][..j] && b[..i] == [b[0]] + b[1..][..j];
      }
    }
  }

  /** Every nonempty finite set of keys has a least element: an ordered tree can be walked in order. */
  lemma {:induction false} LeastKeyExists(s: set<seq<byte>>) returns (least: seq<byte>)
    requires s != {}
    ensures least in s && forall k | k in s :: BytesLeq(least, k)
  {
    var x :| x in s;
    if s == {x} {
      least := x;
    } else {
      var m := LeastKeyExists(s - {x});
      LessTotal(m, x);
      if BytesLess(x, m) {
        forall k | k in s ensures BytesLeq(x, k) {
          if k != x && k != m {
            assert k in s - {x};
            LessTransitive(x, m, k);
          }
        }
        least := x;
      } else {
        least := m;
      }
    }
  }

  lemma Regroup(a: seq<byte>, b: seq<byte>, c: seq<byte>)
    ensures (a + b) + c == a + (b + c)
  {}

  /** Chunks one after the other. */
  function Concat(chunks: seq<seq<byte>>): seq<byte> {
    if chunks == [] then [] else chunks[0] + Concat(chunks[1..])
  }

  lemma {:induction false} ConcatSnoc(chunks: seq<seq<byte>>, chunk: seq<byte>)
    ensures Concat(chunks + [chunk]) == Concat(chunks) + chunk
  {
    var all := chunks + [chunk];
    if chunks == [] {
      assert all[0] == chunk && all[1..] == [];
    } else {
      assert all[0] == chunks[0] && all[1..] == chunks[1..] + [chunk];
      ConcatSnoc(chunks[1..], chunk);
    }
  }
}
