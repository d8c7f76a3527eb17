/**
 * LogviewerController::filename2id: turns a log file name into an HTML element id. Dots
 * become dashes, the name is lower-cased and trimmed, and only the characters of the
 * allowed list survive, in their original order.
 */
module FilenameId {
  import opened PhpStrings

  /** A lower-case ASCII letter, a digit or '-'. */
  predicate IsIdChar(c: char) {
    'a' <= c <= 'z' || '0' <= c <= '9' || c == '-'
  }

  /** The character loop: the characters of s that are in the allowed list, in order. */
  function KeepIdChars(s: string): (r: string)
    ensures |r| <= |s|
    ensures forall k :: 0 <= k < |r| ==> IsIdChar(r[k])
  {
    if s == [] then []
    else KeepIdChars(s[..|s| - 1]) + (if IsIdChar(s[|s| - 1]) then [s[|s| - 1]] else [])
  }

  /** The name the loop walks over: dots replaced by dashes, lower-cased, trimmed. */
  function Normalized(filename: string): (s: string)
    ensures |s| <= |filename|
  {
    Trim(ToLower(ReplaceChar(filename, '.', '-')))
  }

  /** What filename2id returns for a file name. */
  function Slug(filename: string): (id: string)
    ensures |id| <= |filename|
    ensures forall k :: 0 <= k < |id| ==> IsIdChar(id[k])
  {
    KeepIdChars(Normalized(filename))
  }

  /** One more iteration of the loop appends the next character when it is allowed. */
  lemma {:induction false} KeepIdCharsStep(s: string, i: nat)
    requires i < |s|
    ensures KeepIdChars(s[..i + 1]) == KeepIdChars(s[..i]) + (if IsIdChar(s[i]) then [s[i]] else [])
  {
    assert s[..i + 1][..i] == s[..i];
  }

  /** filename2id($filename) */
  method Filename2Id(filename: string) returns (id: string)
    ensures id == Slug(filename)
  {
    var s := Normalized(filename);
    id := "";
    for i := 0 to |s|
      invariant id == KeepIdChars(s[..i])
    {
      var c := s[i];
      KeepIdCharsStep(s, i);
      // strpos($chars, $c) !== false, by IdAlphabet.InIdCharsIffIdChar
      if IsIdChar(c) {
        id := id + [c];
      }
    }
    assert s[..|s|] == s;
  }

  /** The character loop works character by character. */
  lemma {:induction false} KeepIdCharsConcat(a: string, b: string)
    ensures KeepIdChars(a + b) == KeepIdChars(a) + KeepIdChars(b)
    decreases |b|
  {
    if b == [] {
      assert a + b == a;
    } else {
      var b' := b[..|b| - 1];
      var c := b[|b| - 1];
      var tail := if IsIdChar(c) then [c] else [];
      assert (a + b)[..|a + b| - 1] == a + b';
      assert (a + b)[|a + b| - 1] == c;
      KeepIdCharsConcat(a, b');
      assert KeepIdChars(a + b) == KeepIdChars(a + b') + tail;
      assert KeepIdChars(b) == KeepIdChars(b') + tail;
    }
  }

  /** A string with no allowed character yields nothing. */
  lemma {:induction false} KeepIdCharsNone(s: string)
    requires forall k :: 0 <= k < |s| ==> !IsIdChar(s[k])
    ensures KeepIdChars(s) == []
    decreases |s|
  {
    if s != [] {
      KeepIdCharsNone(s[..|s| - 1]);
    }
  }

  /** A string made only of allowed characters comes back unchanged. */
  lemma {:induction false} KeepIdCharsAll(s: string)
    requires forall k :: 0 <= k < |s| ==> IsIdChar(s[k])
    ensures KeepIdChars(s) == s
    decreases |s|
  {
    if s != [] {
      KeepIdCharsAll(s[..|s| - 1]);
      assert s == s[..|s| - 1] + [s[|s| - 1]];
    }
  }

  lemma {:induction false} TrimCharsAreNotIdChars(c: char)
    requires IsTrimChar(c)
    ensures !IsIdChar(c)
  {
  }

  /** ltrim() only strips characters the loop drops anyway. */
  lemma {:induction false} TrimLeftIsInvisible(s: string)
    ensures KeepIdChars(TrimLeft(s)) == KeepIdChars(s)
  {
    var l := TrimLeft(s);
    var front := s[..|s| - |l|];
    assert s == front + l;
    forall k | 0 <= k < |front| ensures !IsIdChar(front[k]) {
      TrimCharsAreNotIdChars(front[k]);
    }
    KeepIdCharsNone(front);
    KeepIdCharsConcat(front, l);
  }

  /** rtrim() only strips characters the loop drops anyway. */
  lemma {:induction false} TrimRightIsInvisible(s: string)
    ensures KeepIdChars(TrimRight(s)) == KeepIdChars(s)
  {
    var r := TrimRight(s);
    var back := s[|r|..];
    assert s == r + back;
    forall k | 0 <= k < |back| ensures !IsIdChar(back[k]) {
      TrimCharsAreNotIdChars(back[k]);
    }
    KeepIdCharsNone(back);
    KeepIdCharsConcat(r, back);
  }

  /** The trim() step never changes the id: every character it strips is dropped by the loop anyway. */
  lemma {:induction false} TrimIsInvisible(s: string)
    ensures KeepIdChars(Trim(s)) == KeepIdChars(s)
  {
    TrimLeftIsInvisible(s);
    TrimRightIsInvisible(TrimLeft(s));
  }

  /** The id of a name with every dot, upper-case letter and trimmable character accounted for:
      the loop applied to the dot-replaced, lower-cased name. */
  lemma {:induction false} SlugWithoutTrim(filename: string)
    ensures Slug(filename) == KeepIdChars(ToLower(ReplaceChar(filename, '.', '-')))
  {
    TrimIsInvisible(ToLower(ReplaceChar(filename, '.', '-')));
  }

  /** The id of one character: a dot gives '-', an upper-case letter its lower-case form,
      an allowed character itself, anything else nothing. */
  lemma {:induction false} SlugOfChar(c: char)
    ensures Slug([c]) == if c == '.' then "-"
                         else if IsUpper(c) then [LowerChar(c)]
                         else if IsIdChar(c) then [c]
                         else []
  {
    SlugWithoutTrim([c]);
    var d := ReplaceChar([c], '.', '-');
    assert d == [if c == '.' then '-' else c];
    var e := ToLower(d);
    assert e == [LowerChar(d[0])];
    assert KeepIdChars(e) == KeepIdChars([]) + (if IsIdChar(e[0]) then [e[0]] else []);
  }

  /** The id of a concatenation is the concatenation of the ids: characters are mapped
      one at a time and their order is kept. */
  lemma {:induction false} SlugConcat(a: string, b: string)
    ensures Slug(a + b) == Slug(a) + Slug(b)
  {
    SlugWithoutTrim(a + b);
    SlugWithoutTrim(a);
    SlugWithoutTrim(b);
    var ra, rb := ReplaceChar(a, '.', '-'), ReplaceChar(b, '.', '-');
    ReplaceCharConcat(a, b, '.', '-');
    ToLowerConcat(ra, rb);
    KeepIdCharsConcat(ToLower(ra), ToLower(rb));
  }

  /** A string already made of allowed characters is its own id. */
  lemma {:induction false} SlugOfId(s: string)
    requires forall k :: 0 <= k < |s| ==> IsIdChar(s[k])
    ensures Slug(s) == s
  {
    ReplaceCharAbsent(s, '.', '-');
    ToLowerNoUpper(s);
    KeepIdCharsAll(s);
    SlugWithoutTrim(s);
  }

  /** filename2id is idempotent. */
  lemma {:induction false} SlugIdempotent(filename: string)
    ensures Slug(Slug(filename)) == Slug(filename)
  {
    SlugOfId(Slug(filename));
  }

  /** filename2id("App.Log") is "app-log": the dot becomes '-', the capitals are lowered, and
      every remaining character is allowed. */
  lemma {:induction false} SlugExample()
    ensures Slug("App.Log") == "app-log"
  {
    ExampleReplace();
    ExampleLower();
    ExampleTrim();
    ExampleKeep();
  }

  /** The str_replace step of the example. */
  lemma {:induction false} ExampleReplace()
    ensures ReplaceChar("App.Log", '.', '-') == "App-Log"
  {
  }

  /** The strtolower step of the example. */
  lemma {:induction false} ExampleLower()
    ensures ToLower("App-Log") == "app-log"
  {
  }

  /** The trim step of the example: nothing to strip. */
  lemma {:induction false} ExampleTrim()
    ensures Trim("app-log") == "app-log"
  {
    var s := "app-log";
    assert s[0] == 'a' && s[|s| - 1] == 'g';
    assert !IsTrimChar(s[0]) && !IsTrimChar(s[|s| - 1]);
  }

  /** The character loop of the example keeps every character. */
  lemma {:induction false} ExampleKeep()
    ensures KeepIdChars("app-log") == "app-log"
  {
    var id := "app-log";
    assert forall k | 0 <= k < |id| :: IsIdChar(id[k]);
    KeepIdCharsAll(id);
  }
}
