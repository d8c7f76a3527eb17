/**
 * The PHP string built-ins the log viewer controller calls: str_replace on a single
 * character, strtolower, trim, substr with a negative start, and explode on "\n". Implode,
 * which the controller never calls, is here as explode's reference inverse.
 * PHP strings are byte strings; here one character stands for one byte.
 */
module PhpStrings {

  /** str_replace($from, $to, $s) for one-character $from and $to. */
  function ReplaceChar(s: string, from: char, to: char): (r: string)
    ensures |r| == |s|
    ensures forall k :: 0 <= k < |s| ==> r[k] == (if s[k] == from then to else s[k])
  {
    if s == [] then [] else [if s[0] == from then to else s[0]] + ReplaceChar(s[1..], from, to)
  }

  predicate IsUpper(c: char) {
    'A' <= c <= 'Z'
  }

  /** strtolower on one byte: only the ASCII letters change (PHP 8.2 on, or the "C" locale). */
  function LowerChar(c: char): char {
    if IsUpper(c) then (c as int + 32) as char else c
  }

  /** strtolower($s) */
  function ToLower(s: string): (r: string)
    ensures |r| == |s|
    ensures forall k :: 0 <= k < |s| ==> r[k] == LowerChar(s[k])
  {
    if s == [] then [] else [LowerChar(s[0])] + ToLower(s[1..])
  }

  /** str_replace changes nothing in a string that does not hold the character replaced. */
  lemma {:induction false} ReplaceCharAbsent(s: string, from: char, to: char)
    requires forall k :: 0 <= k < |s| ==> s[k] != from
    ensures ReplaceChar(s, from, to) == s
    decreases |s|
  {
    if s != [] {
      ReplaceCharAbsent(s[1..], from, to);
    }
  }

  /** str_replace works character by character. */
  lemma {:induction false} ReplaceCharConcat(a: string, b: string, from: char, to: char)
    ensures ReplaceChar(a + b, from, to) == ReplaceChar(a, from, to) + ReplaceChar(b, from, to)
    decreases |a|
  {
    if a == [] {
      assert a + b == b;
    } else {
      assert (a + b)[0] == a[0] && (a + b)[1..] == a[1..] + b;
      ReplaceCharConcat(a[1..], b, from, to);
    }
  }

  /** strtolower works character by character. */
  lemma {:induction false} ToLowerConcat(a: string, b: string)
    ensures ToLower(a + b) == ToLower(a) + ToLower(b)
    decreases |a|
  {
    if a == [] {
      assert a + b == b;
    } else {
      assert (a + b)[0] == a[0] && (a + b)[1..] == a[1..] + b;
      ToLowerConcat(a[1..], b);
    }
  }

  /** strtolower changes nothing in a string without upper-case letters. */
  lemma {:induction false} ToLowerNoUpper(s: string)
    requires forall k :: 0 <= k < |s| ==> !IsUpper(s[k])
    ensures ToLower(s) == s
    decreases |s|
  {
    if s != [] {
      ToLowerNoUpper(s[1..]);
    }
  }

  const VerticalTab: char := 11 as char

  /** The characters trim() strips by default: " \t\n\r\0\x0B". */
  predicate IsTrimChar(c: char) {
    c == ' ' || c == '\t' || c == '\n' || c == '\r' || c == '\0' || c == VerticalTab
  }

  /** ltrim($s): the longest suffix that does not start with a trim character. */
  function TrimLeft(s: string): (r: string)
    ensures |r| <= |s| && r == s[|s| - |r|..]
    ensures forall k :: 0 <= k < |s| - |r| ==> IsTrimChar(s[k])
    ensures r == [] || !IsTrimChar(r[0])
  {
    if s != [] && IsTrimChar(s[0]) then TrimLeft(s[1..]) else s
  }

  /** rtrim($s): the longest prefix that does not end with a trim character. */
  function TrimRight(s: string): (r: string)
    ensures |r| <= |s| && r == s[..|r|]
    ensures forall k :: |r| <= k < |s| ==> IsTrimChar(s[k])
    ensures r == [] || !IsTrimChar(r[|r| - 1])
  {
    if s != [] && IsTrimChar(s[|s| - 1]) then TrimRight(s[..|s| - 1]) else s
  }

  /** trim($s) */
  function Trim(s: string): (r: string)
    ensures |r| <= |s|
    ensures r == [] || (!IsTrimChar(r[0]) && !IsTrimChar(r[|r| - 1]))
    ensures s == [] || (!IsTrimChar(s[0]) && !IsTrimChar(s[|s| - 1])) ==> r == s
  {
    TrimRight(TrimLeft(s))
  }

  /** substr($s, -n): the last n characters, or all of $s when it is shorter than n. */
  function SubstrTail(s: string, n: nat): (r: string)
    ensures |r| == if |s| < n then |s| else n
    ensures r == s[|s| - |r|..]
  {
    if |s| < n then s else s[|s| - n..]
  }

  predicate NoNewline(s: string) {
    forall k :: 0 <= k < |s| ==> s[k] != '\n'
  }

  /** explode("\n", $s): at least one piece, and no piece holds a "\n". */
  function Explode(s: string): (pieces: seq<string>)
    ensures |pieces| >= 1
    ensures forall k :: 0 <= k < |pieces| ==> NoNewline(pieces[k])
    decreases |s|
  {
    if s == [] then [[]]
    else if s[0] == '\n' then [[]] + Explode(s[1..])
    else
      var rest := Explode(s[1..]);
      [[s[0]] + rest[0]] + rest[1..]
  }

  /** implode("\n", $pieces): not called by the controller; the inverse explode is checked against. */
  function Implode(pieces: seq<string>): string {
    if pieces == [] then []
    else if |pieces| == 1 then pieces[0]
    else pieces[0] + "\n" + Implode(pieces[1..])
  }

  /** Joining the pieces of a split gives back the string. */
  lemma {:induction false} ImplodeExplode(s: string)
    ensures Implode(Explode(s)) == s
    decreases |s|
  {
    if s == [] {
    } else if s[0] == '\n' {
      ImplodeExplode(s[1..]);
      var e := Explode(s[1..]);
      assert Explode(s) == [[]] + e;
      assert ([[]] + e)[1..] == e;
      assert s == [] + "\n" + s[1..];
    } else {
      ImplodeExplode(s[1..]);
      var rest := Explode(s[1..]);
      var e := [[s[0]] + rest[0]] + rest[1..];
      assert Explode(s) == e;
      if |rest| == 1 {
        assert Implode(e) == [s[0]] + rest[0];
      } else {
        assert e[1..] == rest[1..];
        assert Implode(rest) == rest[0] + "\n" + Implode(rest[1..]);
        assert Implode(e) == [s[0]] + rest[0] + "\n" + Implode(rest[1..]);
      }
      assert s == [s[0]] + s[1..];
    }
  }

  /** A newline-free prefix glues onto the first piece of what follows it. */
  lemma {:induction false} ExplodeNewlineFreePrefix(p: string, t: string)
    requires NoNewline(p)
    ensures Explode(p + t) == [p + Explode(t)[0]] + Explode(t)[1..]
    decreases |p|
  {
    if p == [] {
      var e := Explode(t);
      assert p + t == t;
      assert p + e[0] == e[0];
      assert e == [e[0]] + e[1..];
    } else {
      var q := p[1..];
      assert NoNewline(q);
      ExplodeNewlineFreePrefix(q, t);
      var e := Explode(q + t);
      assert (p + t)[1..] == q + t;
      assert (p + t)[0] == p[0] && p[0] != '\n';
      assert Explode(p + t) == [[p[0]] + e[0]] + e[1..];
      assert e[0] == q + Explode(t)[0];
      assert e[1..] == Explode(t)[1..];
      assert [p[0]] + (q + Explode(t)[0]) == p + Explode(t)[0];
    }
  }

  /** Splitting joined newline-free pieces gives back the pieces. */
  lemma {:induction false} ExplodeImplode(pieces: seq<string>)
    requires |pieces| >= 1
    requires forall k :: 0 <= k < |pieces| ==> NoNewline(pieces[k])
    ensures Explode(Implode(pieces)) == pieces
  {
    if |pieces| == 1 {
      ExplodeNewlineFreePrefix(pieces[0], []);
      assert pieces[0] + [] == pieces[0];
    } else {
      var rest := pieces[1..];
      ExplodeImplode(rest);
      var u := Implode(rest);
      var t := "\n" + u;
      assert t[0] == '\n' && t[1..] == u;
      assert Explode(t) == [[]] + rest;
      ExplodeNewlineFreePrefix(pieces[0], t);
      assert Implode(pieces) == pieces[0] + t;
      assert Explode(t)[0] == [] && Explode(t)[1..] == rest;
      assert pieces[0] + [] == pieces[0];
      assert pieces == [pieces[0]] + rest;
    }
  }

  /** Appending a piece appends a "\n" and the piece to the joined string. */
  lemma {:induction false} ImplodeSnoc(pieces: seq<string>, last: string)
    requires |pieces| >= 1
    ensures Implode(pieces + [last]) == Implode(pieces) + "\n" + last
  {
    if |pieces| == 1 {
      assert (pieces + [last])[1..] == [last];
    } else {
      ImplodeSnoc(pieces[1..], last);
      assert (pieces + [last])[1..] == pieces[1..] + [last];
    }
  }

  /** The last piece of a split is empty exactly when the string is empty or ends with "\n". */
  lemma {:induction false} ExplodeLastEmpty(s: string)
    ensures Explode(s)[|Explode(s)| - 1] == [] <==> (s == [] || s[|s| - 1] == '\n')
  {
    var e := Explode(s);
    ImplodeExplode(s);
    if |e| == 1 {
      assert s == e[0];
    } else {
      var init := e[..|e| - 1];
      var last := e[|e| - 1];
      assert e == init + [last];
      ImplodeSnoc(init, last);
      assert s == Implode(init) + "\n" + last;
      if last != [] {
        assert s[|s| - 1] == last[|last| - 1];
        assert NoNewline(last);
      }
    }
  }
}
