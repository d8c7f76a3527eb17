/**
 * The PHP array built-ins the tail reader applies to the split lines: preg_grep (with and
 * without PREG_GREP_INVERT) and the end() / array_pop() pair. The regular expression is
 * given by its test on one line; the PCRE engine itself is not part of this model.
 */
module PhpArrays {

  /** a is an order-preserving subsequence of b (b with some elements deleted). */
  predicate IsSubsequence<T(==)>(a: seq<T>, b: seq<T>)
    decreases |b|
  {
    a == [] || (b != [] && if a[0] == b[0] then IsSubsequence(a[1..], b[1..]) else IsSubsequence(a, b[1..]))
  }

  /** Adding an element at the end of the longer sequence keeps a subsequence. */
  lemma {:induction false} SubsequenceExtend<T>(a: seq<T>, b: seq<T>, x: T)
    requires IsSubsequence(a, b)
    ensures IsSubsequence(a, b + [x])
    decreases |b|
  {
    if a != [] {
      assert (b + [x])[0] == b[0] && (b + [x])[1..] == b[1..] + [x];
      if a[0] == b[0] {
        SubsequenceExtend(a[1..], b[1..], x);
      } else {
        SubsequenceExtend(a, b[1..], x);
      }
    }
  }

  /** Adding the same element at the end of both keeps a subsequence. */
  lemma {:induction false} SubsequenceSnoc<T>(a: seq<T>, b: seq<T>, x: T)
    requires IsSubsequence(a, b)
    ensures IsSubsequence(a + [x], b + [x])
    decreases |b|
  {
    if b == [] {
      assert a == [];
      assert (a + [x])[1..] == [];
    } else {
      assert (b + [x])[0] == b[0] && (b + [x])[1..] == b[1..] + [x];
      if a == [] {
        if b[0] != x {
          SubsequenceSnoc(a, b[1..], x);
        }
        assert a + [x] == [x];
        assert [x][1..] == [];
      } else {
        assert (a + [x])[0] == a[0] && (a + [x])[1..] == a[1..] + [x];
        if a[0] == b[0] {
          SubsequenceSnoc(a[1..], b[1..], x);
        } else {
          SubsequenceSnoc(a, b[1..], x);
        }
      }
    }
  }

  /** A prefix of a subsequence is a subsequence. */
  lemma {:induction false} SubsequencePrefix<T>(p: seq<T>, a: seq<T>, b: seq<T>)
    requires IsSubsequence(a, b)
    requires p <= a
    ensures IsSubsequence(p, b)
    decreases |b|
  {
    if p != [] {
      assert a != [] && p[0] == a[0];
      if a[0] == b[0] {
        assert p[1..] <= a[1..];
        SubsequencePrefix(p[1..], a[1..], b[1..]);
      } else {
        SubsequencePrefix(p, a, b[1..]);
      }
    }
  }

  /**
   * preg_grep($pattern, $lines) when invert is false, and preg_grep($pattern, $lines,
   * PREG_GREP_INVERT) when it is true, where matches is the pattern's test on one line.
   * PHP keeps the original keys; only the order of the values is modelled.
   */
  function Grep(lines: seq<string>, matches: string -> bool, invert: bool): (kept: seq<string>)
    ensures |kept| <= |lines|
    ensures forall k :: 0 <= k < |kept| ==> matches(kept[k]) != invert
  {
    if lines == [] then []
    else (if matches(lines[0]) != invert then [lines[0]] else []) + Grep(lines[1..], matches, invert)
  }

  /** The kept lines appear in the input in the same order. */
  lemma {:induction false} GrepIsSubsequence(lines: seq<string>, matches: string -> bool, invert: bool)
    ensures IsSubsequence(Grep(lines, matches, invert), lines)
    decreases |lines|
  {
    if lines != [] {
      GrepIsSubsequence(lines[1..], matches, invert);
      var rest := Grep(lines[1..], matches, invert);
      if matches(lines[0]) != invert {
        assert Grep(lines, matches, invert) == [lines[0]] + rest;
        assert ([lines[0]] + rest)[1..] == rest;
      } else {
        assert Grep(lines, matches, invert) == rest;
        if rest != [] && rest[0] == lines[0] {
          assert matches(rest[0]) != invert;
        }
      }
    }
  }

  /** A line is kept exactly when it is one of the input lines and passes the test. */
  lemma {:induction false} GrepMembership(lines: seq<string>, matches: string -> bool, invert: bool, line: string)
    ensures line in Grep(lines, matches, invert) <==> line in lines && matches(line) != invert
    decreases |lines|
  {
    if lines != [] {
      GrepMembership(lines[1..], matches, invert, line);
      assert lines == [lines[0]] + lines[1..];
    }
  }

  /** Grep works line by line: the grep of a concatenation is the concatenation of the greps. */
  lemma {:induction false} GrepConcat(a: seq<string>, b: seq<string>, matches: string -> bool, invert: bool)
    ensures Grep(a + b, matches, invert) == Grep(a, matches, invert) + Grep(b, matches, invert)
    decreases |a|
  {
    if a == [] {
      assert a + b == b;
    } else {
      var head := if matches(a[0]) != invert then [a[0]] else [];
      assert (a + b)[0] == a[0];
      assert (a + b)[1..] == a[1..] + b;
      assert Grep(a + b, matches, invert) == head + Grep(a[1..] + b, matches, invert);
      GrepConcat(a[1..], b, matches, invert);
      assert Grep(a, matches, invert) == head + Grep(a[1..], matches, invert);
      assert head + (Grep(a[1..], matches, invert) + Grep(b, matches, invert))
          == (head + Grep(a[1..], matches, invert)) + Grep(b, matches, invert);
    }
  }

  /** When every line passes the test nothing is removed. */
  lemma {:induction false} GrepKeepsAll(lines: seq<string>, matches: string -> bool, invert: bool)
    requires forall k :: 0 <= k < |lines| ==> matches(lines[k]) != invert
    ensures Grep(lines, matches, invert) == lines
    decreases |lines|
  {
    if lines != [] {
      GrepKeepsAll(lines[1..], matches, invert);
      assert lines == [lines[0]] + lines[1..];
    }
  }

  /**
   * if (end($lines) == "") array_pop($lines). end() of an empty array is false and
   * false == "" holds, but array_pop() of an empty array changes nothing.
   */
  function DropTrailingEmpty(lines: seq<string>): (r: seq<string>)
    ensures r <= lines
    ensures r == lines || (lines != [] && lines[|lines| - 1] == [] && r == lines[..|lines| - 1])
    ensures lines != [] && lines[|lines| - 1] == [] ==> |r| == |lines| - 1
  {
    if lines != [] && lines[|lines| - 1] == [] then lines[..|lines| - 1] else lines
  }

  /** The lines are given back whole, or with one trailing "" removed. */
  lemma {:induction false} DropTrailingEmptyRestores(lines: seq<string>)
    ensures var r := DropTrailingEmpty(lines);
      r == lines || (lines != [] && lines[|lines| - 1] == [] && r + [[]] == lines)
  {
    if lines != [] && lines[|lines| - 1] == [] {
      assert lines == lines[..|lines| - 1] + [lines[|lines| - 1]];
    }
  }
}
