/** `clean_text_for_tts`: the copy of a reply that is handed to speech
    synthesis. Three deletion passes remove symbols a speech engine should not
    read aloud, then every whitespace run becomes one space and the ends are
    trimmed. Its reference meaning is `" ".join(x.split())` of the text with
    those symbols deleted. */
module Sanitizer {
  import opened Text

  /** Deleted by `text.replace('*', '')`. */
  const Stars: set<char> := {'*'}
  /** Deleted by `re.sub(r'[=\\/]', '', text)`. */
  const PathChars: set<char> := {'=', '\\', '/'}
  /** Deleted by `re.sub(r'[(){}<>]', '', text)`; square brackets are not among them. */
  const Brackets: set<char> := {'(', ')', '{', '}', '<', '>'}
  /** Everything the three deletion passes remove. */
  const Removed: set<char> := Stars + PathChars + Brackets

  /** The string with every character of `drop` deleted, the rest kept in order. */
  function DeleteChars(s: string, drop: set<char>): (r: string)
    ensures |r| <= |s|
    ensures forall i :: 0 <= i < |r| ==> r[i] !in drop
  {
    if s == [] then []
    else if s[0] in drop then DeleteChars(s[1..], drop)
    else [s[0]] + DeleteChars(s[1..], drop)
  }

  /** `re.sub(r'\s+', ' ', text)`: every maximal whitespace run becomes one
      plain space; the runs between them are copied unchanged. */
  function CollapseSpaces(s: string): (r: string)
    ensures |r| <= |s|
    decreases |s|
  {
    if s == [] then []
    else if IsSpace(s[0]) then
      var rest := TrimStart(s);
      assert rest != s;
      " " + CollapseSpaces(rest)
    else
      var n := WordEnd(s);
      s[..n] + CollapseSpaces(s[n..])
  }

  /** The collapse introduces no character except the plain space. */
  lemma {:induction false} CollapseChars(s: string)
    ensures forall c :: c in CollapseSpaces(s) ==> c == ' ' || c in s
    decreases |s|
  {
    if s != [] {
      if IsSpace(s[0]) {
        var rest := TrimStart(s);
        CollapseChars(rest);
        TrimStartChars(s);
        assert forall c :: c in rest ==> c in s;
      } else {
        var n := WordEnd(s);
        CollapseChars(s[n..]);
        assert forall c :: c in s[n..] ==> c in s;
        assert forall c :: c in s[..n] ==> c in s;
      }
    }
  }

  /** `re.sub(r'\s+', ' ', text).strip()`: single-spaced, and holding no
      character but the plain space that the text did not hold. That it is
      `" ".join(text.split())` is `StripCollapseIsSplitJoin`. */
  function NormalizeSpaces(t: string): (r: string)
    ensures SingleSpaced(r)
    ensures forall c :: c in r ==> c == ' ' || c in t
    ensures |r| <= |t|
  {
    StripCollapseIsSplitJoin(t);
    JoinSingleSpaced(Split(t));
    CollapseChars(t);
    Strip(CollapseSpaces(t))
  }

  /** `clean_text_for_tts`: the three deletion passes, in the source's order,
      then the whitespace normalisation. The result holds none of the
      deleted symbols, is single-spaced and is never longer than the input. */
  function CleanTextForTts(s: string): (r: string)
    ensures forall i :: 0 <= i < |r| ==> r[i] !in Removed
    ensures SingleSpaced(r)
    ensures |r| <= |s|
  {
    var noStars := DeleteChars(s, Stars);
    var noPaths := DeleteChars(noStars, PathChars);
    var noBrackets := DeleteChars(noPaths, Brackets);
    DeleteCharsTwice(s, Stars, PathChars);
    DeleteCharsTwice(s, Stars + PathChars, Brackets);
    assert noBrackets == DeleteChars(s, Removed);
    NormalizeAvoids(noBrackets, Removed);
    NormalizeSpaces(noBrackets)
  }

  /** The three deletion passes act as one pass over all the symbols. */
  lemma CleanIsOnePass(s: string)
    ensures CleanTextForTts(s) == NormalizeSpaces(DeleteChars(s, Removed))
  {
    DeleteCharsTwice(s, Stars, PathChars);
    DeleteCharsTwice(s, Stars + PathChars, Brackets);
  }

  /** The reference meaning of cleaning: `" ".join(x.split())` of the input
      `x` with the symbols deleted. */
  lemma CleanMatchesReference(s: string)
    ensures CleanTextForTts(s) == Join(Split(DeleteChars(s, Removed)))
  {
    CleanIsOnePass(s);
    StripCollapseIsSplitJoin(DeleteChars(s, Removed));
  }

  /** Normalising whitespace brings back none of the characters the text lacks,
      unless it is the plain space. */
  lemma NormalizeAvoids(t: string, drop: set<char>)
    requires forall i :: 0 <= i < |t| ==> t[i] !in drop
    requires ' ' !in drop
    ensures forall i :: 0 <= i < |NormalizeSpaces(t)| ==> NormalizeSpaces(t)[i] !in drop
  {
    var r := NormalizeSpaces(t);
    forall i | 0 <= i < |r|
      ensures r[i] !in drop
    {
      assert r[i] in r;
      if r[i] != ' ' {
        assert r[i] in t;
      }
    }
  }

  /** Two deletion passes delete the union of their character sets. */
  lemma {:induction false} DeleteCharsTwice(s: string, a: set<char>, b: set<char>)
    ensures DeleteChars(DeleteChars(s, a), b) == DeleteChars(s, a + b)
    decreases |s|
  {
    if s != [] {
      DeleteCharsTwice(s[1..], a, b);
      if s[0] !in a {
        assert ([s[0]] + DeleteChars(s[1..], a))[1..] == DeleteChars(s[1..], a);
      }
    }
  }

  /** Deleting characters the text does not contain leaves it unchanged. */
  lemma {:induction false} DeleteCharsAbsent(s: string, drop: set<char>)
    requires forall i :: 0 <= i < |s| ==> s[i] !in drop
    ensures DeleteChars(s, drop) == s
    decreases |s|
  {
    if s != [] {
      DeleteCharsAbsent(s[1..], drop);
      assert s == [s[0]] + s[1..];
    }
  }

  /** Deleting characters keeps every other character as often as it occurs. */
  lemma {:induction false} DeleteCharsCount(s: string, drop: set<char>, c: char)
    requires c !in drop
    ensures multiset(DeleteChars(s, drop))[c] == multiset(s)[c]
    decreases |s|
  {
    if s != [] {
      assert s == [s[0]] + s[1..];
      DeleteCharsCount(s[1..], drop, c);
    }
  }

  /** One space when the flag is set, nothing otherwise. */
  function Pad(b: bool): string
  {
    if b then " " else []
  }

  lemma PadIsBlank(b: bool)
    ensures AllSpace(Pad(b)) && Strip(Pad(b)) == []
  {
    OneSpaceIsBlank();
  }

  /** The collapse is the words joined by single spaces, plus one space for a
      whitespace run at either end; blank text collapses to at most one space. */
  ghost predicate CollapseIsPadded(t: string)
  {
    && (AllSpace(t) ==> CollapseSpaces(t) == Pad(t != []))
    && (!AllSpace(t) ==>
          CollapseSpaces(t) == Pad(IsSpace(t[0])) + Join(Split(t)) + Pad(IsSpace(t[|t| - 1])))
  }

  lemma CollapseBlank(t: string)
    requires AllSpace(t)
    ensures CollapseIsPadded(t)
  {
    if t != [] {
      assert CollapseSpaces(t) == " " + CollapseSpaces(TrimStart(t));
    }
  }

  /** Induction step for text that starts with whitespace. */
  lemma CollapseAfterSpaces(t: string)
    requires t != [] && IsSpace(t[0]) && !AllSpace(t)
    requires CollapseIsPadded(TrimStart(t))
    ensures CollapseIsPadded(t)
  {
    var u := TrimStart(t);
    var back := Pad(IsSpace(t[|t| - 1]));
    LeadingBlankSkipped(t);
    assert CollapseSpaces(t) == " " + CollapseSpaces(u);
    SpacesThenMoreShape(CollapseSpaces(t), CollapseSpaces(u), Join(Split(t)), back);
  }

  /** What `lstrip()` leaves of text that is not blank: a non-empty remainder
      with the same last character and the same words. */
  lemma LeadingBlankSkipped(t: string)
    requires t != [] && !AllSpace(t)
    ensures TrimStart(t) != [] && !IsSpace(TrimStart(t)[0]) && !AllSpace(TrimStart(t))
    ensures TrimStart(t)[|TrimStart(t)| - 1] == t[|t| - 1]
    ensures Split(t) == Split(TrimStart(t))
  {
    var u := TrimStart(t);
    var k := |t| - |u|;
    assert u != [];
    if k > 0 {
      TrimStartIsSuffix(t);
      Reassemble(t, k);
      SplitSkipsBlank(t[..k], u);
    }
  }

  /** The string algebra behind `CollapseAfterSpaces`. */
  lemma SpacesThenMoreShape(ct: string, cu: string, j: string, back: string)
    requires ct == " " + cu
    requires cu == Pad(false) + j + back
    ensures ct == Pad(true) + j + back
  {
    EmptyUnit(j);
    Associative(" ", j, back);
  }

  /** Induction step for text that starts with a word: the word is all of it. */
  lemma CollapseWholeWord(t: string)
    requires t != [] && !IsSpace(t[0]) && WordEnd(t) == |t|
    ensures CollapseIsPadded(t)
  {
    var w := t[..|t|];
    assert w == t;
    assert TrimStart(t) == t;
    assert t[|t|..] == [];
    assert Split(t) == [t];
    EmptyUnit(t);
    assert CollapseSpaces(t) == t;
  }

  /** Induction step for text that starts with a word followed only by whitespace. */
  lemma CollapseWordThenBlank(t: string)
    requires t != [] && !IsSpace(t[0]) && WordEnd(t) < |t|
    requires AllSpace(t[WordEnd(t)..])
    requires CollapseIsPadded(t[WordEnd(t)..])
    ensures CollapseIsPadded(t)
  {
    var n := WordEnd(t);
    var w, d := t[..n], t[n..];
    assert TrimStart(t) == t;
    SplitEmpty(d);
    assert Split(t) == [w];
    assert t[|t| - 1] == d[|d| - 1];
    EmptyUnit(w);
    assert CollapseSpaces(t) == w + " ";
  }

  /** Induction step for text that starts with a word followed by more words. */
  lemma CollapseWordThenMore(t: string)
    requires t != [] && !IsSpace(t[0]) && WordEnd(t) < |t|
    requires !AllSpace(t[WordEnd(t)..])
    requires CollapseIsPadded(t[WordEnd(t)..])
    ensures CollapseIsPadded(t)
  {
    var n := WordEnd(t);
    var d := t[n..];
    assert d[0] == t[n] && IsSpace(d[0]);
    PaddedAfterSpace(d);
    LastOfSuffix(t, d, n);
    CollapseLeadingWord(t);
    JoinSplitAfterWord(t);
    WordThenMoreShape(CollapseSpaces(t), t[..n], CollapseSpaces(d), Join(Split(d)), Pad(IsSpace(t[|t| - 1])), Join(Split(t)));
    PaddedFromWord(t);
  }

  /** For text that starts with whitespace and is not blank, the collapse is
      one space, the words joined by single spaces, and one more space when
      the text ends with whitespace. */
  // Kept as its own step: unfolding it inside `CollapseWordThenMore` makes
  // that proof unstable.
  lemma PaddedAfterSpace(d: string)
    requires d != [] && IsSpace(d[0]) && !AllSpace(d)
    requires CollapseIsPadded(d)
    ensures CollapseSpaces(d) == " " + Join(Split(d)) + Pad(IsSpace(d[|d| - 1]))
  {
  }

  /** `CollapseIsPadded` established for text that starts with a word. */
  lemma PaddedFromWord(t: string)
    requires t != [] && !IsSpace(t[0])
    requires CollapseSpaces(t) == Pad(false) + Join(Split(t)) + Pad(IsSpace(t[|t| - 1]))
    ensures CollapseIsPadded(t)
  {
  }

  /** Split and join of text that starts with a word and has more after it. */
  lemma JoinSplitAfterWord(t: string)
    requires t != [] && !IsSpace(t[0]) && WordEnd(t) < |t|
    requires !AllSpace(t[WordEnd(t)..])
    ensures Join(Split(t)) == t[..WordEnd(t)] + " " + Join(Split(t[WordEnd(t)..]))
  {
    var d := t[WordEnd(t)..];
    SplitAfterWord(t);
    SplitEmpty(d);
    JoinCons(t[..WordEnd(t)], Split(d));
  }

  /** A non-empty suffix ends with the same character as the whole text. */
  lemma LastOfSuffix(t: string, d: string, n: nat)
    requires n < |t| && d == t[n..]
    ensures Pad(IsSpace(d[|d| - 1])) == Pad(IsSpace(t[|t| - 1]))
  {
    assert d[|d| - 1] == t[|t| - 1];
  }

  /** A leading word is copied unchanged in front of the collapse of the rest. */
  lemma CollapseLeadingWord(t: string)
    requires t != [] && !IsSpace(t[0])
    ensures CollapseSpaces(t) == t[..WordEnd(t)] + CollapseSpaces(t[WordEnd(t)..])
  {
  }

  /** The string algebra behind `CollapseWordThenMore`. */
  lemma WordThenMoreShape(ct: string, w: string, cd: string, j: string, back: string, jt: string)
    requires ct == w + cd
    requires cd == " " + j + back
    requires jt == w + " " + j
    ensures ct == Pad(false) + jt + back
  {
    Associative(w, " ", j);
    Associative(w, " " + j, back);
    EmptyUnit(jt);
  }

  lemma {:induction false} CollapseIsPaddedJoin(t: string)
    ensures CollapseIsPadded(t)
    decreases |t|
  {
    if AllSpace(t) {
      CollapseBlank(t);
    } else if IsSpace(t[0]) {
      CollapseIsPaddedJoin(TrimStart(t));
      CollapseAfterSpaces(t);
    } else if WordEnd(t) == |t| {
      CollapseWholeWord(t);
    } else {
      var d := t[WordEnd(t)..];
      CollapseIsPaddedJoin(d);
      if AllSpace(d) {
        CollapseWordThenBlank(t);
      } else {
        CollapseWordThenMore(t);
      }
    }
  }

  lemma StripPaddedJoin(c: string, j: string, front: bool, back: bool)
    requires c == Pad(front) + j + Pad(back)
    requires SingleSpaced(j) && j != []
    ensures Strip(c) == j
  {
    PadIsBlank(front);
    PadIsBlank(back);
    StripPadded(Pad(front), j, Pad(back));
  }

  /** `re.sub(r'\s+', ' ', x).strip() == " ".join(x.split())`. */
  lemma StripCollapseIsSplitJoin(t: string)
    ensures Strip(CollapseSpaces(t)) == Join(Split(t))
  {
    CollapseIsPaddedJoin(t);
    SplitEmpty(t);
    if AllSpace(t) {
      PadIsBlank(t != []);
    } else {
      var ws := Split(t);
      JoinSingleSpaced(ws);
      StripPaddedJoin(CollapseSpaces(t), Join(ws), IsSpace(t[0]), IsSpace(t[|t| - 1]));
    }
  }

  /** Collapsing whitespace runs keeps the other characters, in order. */
  lemma {:induction false} CollapseKeepsNonSpace(t: string)
    ensures NonSpace(CollapseSpaces(t)) == NonSpace(t)
    decreases |t|
  {
    if t == [] {
    } else if IsSpace(t[0]) {
      var u := TrimStart(t);
      var k := |t| - |u|;
      TrimStartIsSuffix(t);
      CollapseKeepsNonSpace(u);
      OneSpaceIsBlank();
      NonSpaceOfBlank(" ");
      NonSpaceAppend(" ", CollapseSpaces(u));
      Reassemble(t, k);
      NonSpaceAppend(t[..k], u);
      NonSpaceOfBlank(t[..k]);
      EmptyUnit(NonSpace(u));
      EmptyUnit(NonSpace(CollapseSpaces(u)));
    } else {
      var n := WordEnd(t);
      CollapseKeepsNonSpace(t[n..]);
      NonSpaceAppend(t[..n], CollapseSpaces(t[n..]));
      Reassemble(t, n);
      NonSpaceAppend(t[..n], t[n..]);
    }
  }

  /** Nothing else changes: with whitespace ignored, the cleaned text is
      exactly the input without the deleted symbols, in the original order. */
  lemma CleanKeepsOrder(s: string)
    ensures NonSpace(CleanTextForTts(s)) == NonSpace(DeleteChars(s, Removed))
  {
    var d := DeleteChars(s, Removed);
    CleanIsOnePass(s);
    StripKeepsNonSpace(CollapseSpaces(d));
    CollapseKeepsNonSpace(d);
  }

  /** Every character that is neither whitespace nor a deleted symbol (square
      brackets, letters, digits, punctuation) survives as often as it occurs. */
  lemma CleanKeepsOtherChars(s: string, c: char)
    requires !IsSpace(c) && c !in Removed
    ensures multiset(CleanTextForTts(s))[c] == multiset(s)[c]
  {
    var r := CleanTextForTts(s);
    var d := DeleteChars(s, Removed);
    CleanKeepsOrder(s);
    NonSpaceCount(r, c);
    NonSpaceCount(d, c);
    DeleteCharsCount(s, Removed, c);
  }

  /** The texts cleaning leaves unchanged are exactly those without deleted
      symbols that are already single-spaced. */
  lemma CleanFixedPoint(s: string)
    ensures CleanTextForTts(s) == s <==>
      (forall i :: 0 <= i < |s| ==> s[i] !in Removed) && SingleSpaced(s)
  {
    if (forall i :: 0 <= i < |s| ==> s[i] !in Removed) && SingleSpaced(s) {
      CleanMatchesReference(s);
      DeleteCharsAbsent(s, Removed);
      JoinSplit(s);
    }
  }

  /** Cleaning twice is cleaning once. */
  lemma CleanIdempotent(s: string)
    ensures CleanTextForTts(CleanTextForTts(s)) == CleanTextForTts(s)
  {
    CleanFixedPoint(CleanTextForTts(s));
  }

  /** Deletion leaves only whitespace exactly when every character of the
      input is whitespace or deleted. */
  lemma {:induction false} DeleteCharsBlank(s: string, drop: set<char>)
    ensures AllSpace(DeleteChars(s, drop)) <==>
      forall i :: 0 <= i < |s| ==> IsSpace(s[i]) || s[i] in drop
    decreases |s|
  {
    if s != [] {
      var rest := DeleteChars(s[1..], drop);
      DeleteCharsBlank(s[1..], drop);
      assert forall i :: 1 <= i < |s| ==> s[i] == s[1..][i - 1];
      if s[0] !in drop {
        var r := [s[0]] + rest;
        assert DeleteChars(s, drop) == r;
        if AllSpace(r) {
          assert IsSpace(r[0]);
          forall i | 0 <= i < |rest| ensures IsSpace(rest[i]) {
            assert rest[i] == r[i + 1];
          }
        }
        if IsSpace(s[0]) && AllSpace(rest) {
          forall i | 0 <= i < |r| ensures IsSpace(r[i]) {
            if i > 0 { assert r[i] == rest[i - 1]; }
          }
        }
      }
    }
  }

  /** Cleaning leaves nothing to say exactly when the input holds only
      whitespace and deleted symbols. */
  lemma CleanIsEmpty(s: string)
    ensures CleanTextForTts(s) == [] <==>
      forall i :: 0 <= i < |s| ==> IsSpace(s[i]) || s[i] in Removed
  {
    var d := DeleteChars(s, Removed);
    CleanMatchesReference(s);
    SplitEmpty(d);
    JoinSingleSpaced(Split(d));
    DeleteCharsBlank(s, Removed);
  }
}
