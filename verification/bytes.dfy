/** Byte strings and the bytewise lexicographic order that RocksDB's default
    comparator uses. The range lemmas here justify (and delimit) the
    `[prefix, increment(prefix))` trick that prefix deletion relies on. */
module Bytes {
  type Byte = b: int | 0 <= b < 256
  type Bytes = seq<Byte>

  /** Strict bytewise lexicographic order: the first differing byte decides,
      and a proper prefix sorts before every extension of it. */
  predicate LexLess(a: Bytes, b: Bytes)
    decreases |a|
  {
    if |b| == 0 then false
    else if |a| == 0 then true
    else if a[0] != b[0] then a[0] < b[0]
    else LexLess(a[1..], b[1..])
  }

  predicate LexLe(a: Bytes, b: Bytes) {
    a == b || LexLess(a, b)
  }

  /** Membership in the half-open range `[start, end)`, as RocksDB's
      `delete_range` interprets it. */
  predicate InRange(k: Bytes, start: Bytes, end: Bytes) {
    LexLe(start, k) && LexLess(k, end)
  }

  /** The key range end computed by prefix deletion: the last byte of the
      prefix incremented by one as a Rust `u8`. This follows a release build,
      where `0xFF + 1` wraps to `0x00` (a debug build panics instead). */
  function IncrementLast(p: Bytes): (r: Bytes)
    requires |p| > 0
    ensures |r| == |p|
    ensures r[..|p| - 1] == p[..|p| - 1]
    ensures p[|p| - 1] < 255 ==> r[|p| - 1] == p[|p| - 1] + 1
    ensures p[|p| - 1] == 255 ==> r[|p| - 1] == 0
  {
    p[..|p| - 1] + [(p[|p| - 1] as int + 1) % 256]
  }

  lemma {:induction false} LexLessIrreflexive(a: Bytes)
    ensures !LexLess(a, a)
    decreases |a|
  {
    if |a| > 0 {
      LexLessIrreflexive(a[1..]);
    }
  }

  lemma {:induction false} LexLessTransitive(a: Bytes, b: Bytes, c: Bytes)
    requires LexLess(a, b) && LexLess(b, c)
    ensures LexLess(a, c)
    decreases |a|
  {
    assert |b| > 0 && |c| > 0;
    if |a| > 0 && a[0] == b[0] && b[0] == c[0] {
      LexLessTransitive(a[1..], b[1..], c[1..]);
    }
  }

  /** Sharing a first byte does not change how two strings compare. */
  lemma LexLessCons(x: Byte, a: Bytes, b: Bytes)
    ensures LexLess([x] + a, [x] + b) <==> LexLess(a, b)
  {
    assert ([x] + a)[1..] == a;
    assert ([x] + b)[1..] == b;
  }

  lemma IncrementLastCons(p: Bytes)
    requires |p| >= 2
    ensures IncrementLast(p) == [p[0]] + IncrementLast(p[1..])
  {
  }

  /** The range `[p, IncrementLast(p))` holds exactly the keys that start with
      `p`, provided `p` is non-empty and its last byte is below 0xFF. */
  lemma {:induction false} PrefixRangeExact(p: Bytes, k: Bytes)
    requires |p| > 0 && p[|p| - 1] < 255
    ensures InRange(k, p, IncrementLast(p)) <==> p <= k
    decreases |p|
  {
    var e := IncrementLast(p);
    if |k| == 0 {
      assert !LexLe(p, k);
    } else if |p| == 1 {
      assert e == [p[0] + 1];
      if k[0] == p[0] {
        assert p <= k;
        if |k| == 1 {
          assert k == p;
        } else {
          assert LexLess(p, k) by { assert p[1..] == []; }
        }
        assert LexLess(k, e);
      } else {
        assert !(p <= k);
        assert !InRange(k, p, e) by {
          if k[0] < p[0] {
            assert !LexLe(p, k);
          } else {
            assert !LexLess(k, e);
          }
        }
      }
    } else {
      var q := p[1..];
      assert p == [p[0]] + q;
      assert e == [p[0]] + IncrementLast(q) by { IncrementLastCons(p); }
      if k[0] == p[0] {
        var k' := k[1..];
        assert k == [p[0]] + k';
        LexLessCons(p[0], q, k');
        LexLessCons(p[0], k', IncrementLast(q));
        assert LexLe(p, k) <==> LexLe(q, k');
        assert p <= k <==> q <= k';
        PrefixRangeExact(q, k');
      } else {
        assert !(p <= k);
        assert !InRange(k, p, e) by {
          if k[0] < p[0] {
            assert !LexLe(p, k);
          } else {
            assert !LexLess(k, e);
          }
        }
      }
    }
  }

  /** With a last byte of 0xFF the incremented end wraps below the start, so the
      range `[p, IncrementLast(p))` is empty. */
  lemma WrappedRangeEmpty(p: Bytes, k: Bytes)
    requires |p| > 0 && p[|p| - 1] == 255
    ensures !InRange(k, p, IncrementLast(p))
  {
    var e := IncrementLast(p);
    EndBelowStart(p);
    if InRange(k, p, e) {
      if p == k {
        LexLessTransitive(e, p, e);
      } else {
        LexLessTransitive(p, k, e);
        LexLessTransitive(e, p, e);
      }
      LexLessIrreflexive(e);
    }
  }

  lemma {:induction false} EndBelowStart(p: Bytes)
    requires |p| > 0 && p[|p| - 1] == 255
    ensures LexLess(IncrementLast(p), p)
    decreases |p|
  {
    if |p| >= 2 {
      IncrementLastCons(p);
      EndBelowStart(p[1..]);
      assert p == [p[0]] + p[1..];
      LexLessCons(p[0], IncrementLast(p[1..]), p[1..]);
    }
  }
}
