/** The Python string primitives the service relies on: what counts as
    whitespace, `str.strip()`, and `str.split()` / `" ".join(...)`, which
    serve as the reference meaning of whitespace normalisation. */
module Text {

  /** Python's `str.isspace()` on one character. The `re` module's `\s` in a
      str pattern matches exactly the same characters, so one predicate serves
      both `strip()` and the `\s+` substitution. */
  predicate IsSpace(c: char) {
    || ('\t' <= c <= '\r')              // U+0009..U+000D: tab, LF, VT, FF, CR
    || ('\U{1C}' <= c <= '\U{1F}')      // file, group, record and unit separators
    || c == ' '
    || c == '\U{85}'                    // next line
    || c == '\U{A0}'                    // no-break space
    || c == '\U{1680}'                  // ogham space mark
    || ('\U{2000}' <= c <= '\U{200A}')  // en quad .. hair space
    || c == '\U{2028}' || c == '\U{2029}'
    || c == '\U{202F}' || c == '\U{205F}' || c == '\U{3000}'
  }

  predicate AllSpace(s: string) {
    forall i :: 0 <= i < |s| ==> IsSpace(s[i])
  }

  predicate NoSpace(s: string) {
    forall i :: 0 <= i < |s| ==> !IsSpace(s[i])
  }

  /** A word in the sense of `str.split()`: a non-empty run without whitespace. */
  predicate IsWord(w: string) {
    w != [] && NoSpace(w)
  }

  /** Text as `" ".join(x.split())` leaves it: no whitespace at either end,
      every whitespace character a plain space, and no two of them adjacent. */
  predicate SingleSpaced(s: string) {
    && (s == [] || (!IsSpace(s[0]) && !IsSpace(s[|s| - 1])))
    && (forall i :: 0 <= i < |s| && IsSpace(s[i]) ==> s[i] == ' ')
    && (forall i, j :: 0 <= i < |s| && 0 <= j < |s| && j == i + 1 && IsSpace(s[i]) ==> !IsSpace(s[j]))
  }

  /** `str.lstrip()`: drops the longest all-whitespace prefix; what is left is
      the suffix of `s` of its own length (`TrimStartIsSuffix`). */
  // The suffix is a separate lemma so that the contract never equates `s`
  // with a slice of itself.
  function TrimStart(s: string): (r: string)
    ensures |r| <= |s|
    ensures |r| == |s| ==> r == s
    ensures AllSpace(s[..|s| - |r|])
    ensures r == [] || !IsSpace(r[0])
    ensures r != [] ==> r[0] == s[|s| - |r|] && r[|r| - 1] == s[|s| - 1]
  {
    if |s| > 0 && IsSpace(s[0]) then TrimStart(s[1..]) else s
  }

  /** `str.rstrip()`: drops the longest all-whitespace suffix; the result is
      the prefix of `s` of its own length. */
  function TrimEnd(s: string): (r: string)
    ensures |r| <= |s|
    ensures forall i :: 0 <= i < |r| ==> r[i] == s[i]
    ensures forall i :: |r| <= i < |s| ==> IsSpace(s[i])
    ensures r == [] || !IsSpace(r[|r| - 1])
  {
    if |s| > 0 && IsSpace(s[|s| - 1]) then TrimEnd(s[..|s| - 1]) else s
  }

  /** `lstrip()` keeps a suffix of its input. The slice is only taken when
      something was dropped. */
  lemma {:induction false} TrimStartIsSuffix(s: string)
    requires |TrimStart(s)| < |s|
    ensures TrimStart(s) == s[|s| - |TrimStart(s)|..]
    decreases |s|
  {
    var t := s[1..];
    if |TrimStart(t)| < |t| {
      TrimStartIsSuffix(t);
      assert t[|t| - |TrimStart(t)|..] == s[|s| - |TrimStart(s)|..];
    }
  }

  /** `lstrip()` adds no character. */
  lemma TrimStartChars(s: string)
    ensures forall c :: c in TrimStart(s) ==> c in s
  {
    if |TrimStart(s)| < |s| {
      TrimStartIsSuffix(s);
    }
  }

  /** `rstrip()` keeps a prefix of its input and drops only whitespace. */
  lemma TrimEndIsPrefix(s: string)
    requires TrimEnd(s) != []
    ensures TrimEnd(s) == s[..|TrimEnd(s)|]
    ensures AllSpace(s[|TrimEnd(s)|..])
  {
  }

  /** `str.strip()` with no argument. */
  function Strip(s: string): (r: string)
    ensures |r| <= |s|
    ensures r == [] <==> AllSpace(s)
    ensures r == [] || (!IsSpace(r[0]) && !IsSpace(r[|r| - 1]))
    ensures forall c :: c in r ==> c in s
  {
    TrimStartChars(s);
    TrimEnd(TrimStart(s))
  }

  /** The length of the leading word of `s`: the index of its first
      whitespace character, or `|s|` when there is none. */
  function WordEnd(s: string): (n: nat)
    ensures n <= |s|
    ensures n == 0 <==> s == [] || IsSpace(s[0])
    ensures NoSpace(s[..n])
    ensures n == |s| || IsSpace(s[n])
  {
    if |s| == 0 || IsSpace(s[0]) then 0 else 1 + WordEnd(s[1..])
  }

  /** `str.split()` with no argument: the maximal whitespace-free runs, in order. */
  function Split(s: string): (ws: seq<string>)
    ensures forall i :: 0 <= i < |ws| ==> IsWord(ws[i])
    decreases |s|
  {
    var t := TrimStart(s);
    if t == [] then []
    else
      var n := WordEnd(t);
      var ws := Split(t[n..]);
      ConsWords(t[..n], ws);
      [t[..n]] + ws
  }

  /** A word in front of a sequence of words gives a sequence of words. */
  lemma ConsWords(w: string, ws: seq<string>)
    requires w != [] && NoSpace(w)
    requires forall i :: 0 <= i < |ws| ==> IsWord(ws[i])
    ensures forall i :: 0 <= i < |[w] + ws| ==> IsWord(([w] + ws)[i])
  {
    assert forall i :: 0 < i < |[w] + ws| ==> ([w] + ws)[i] == ws[i - 1];
  }

  /** `s.split()` is empty exactly when `s` is blank. */
  lemma SplitEmpty(s: string)
    ensures Split(s) == [] <==> AllSpace(s)
  {
    var t := TrimStart(s);
    if t == [] {
      assert s[..|s|] == s;
    } else {
      assert s[|s| - |t|] == t[0];
    }
  }

  /** `" ".join(ws)`. */
  function Join(ws: seq<string>): string
  {
    if |ws| == 0 then []
    else if |ws| == 1 then ws[0]
    else ws[0] + " " + Join(ws[1..])
  }

  /** The string with every whitespace character deleted, order kept. */
  function NonSpace(s: string): (r: string)
    ensures NoSpace(r)
    ensures |r| <= |s|
  {
    if s == [] then []
    else if IsSpace(s[0]) then NonSpace(s[1..])
    else [s[0]] + NonSpace(s[1..])
  }

  /** Deleting whitespace keeps every other character as often as it occurs. */
  lemma {:induction false} NonSpaceCount(s: string, c: char)
    requires !IsSpace(c)
    ensures multiset(NonSpace(s))[c] == multiset(s)[c]
    decreases |s|
  {
    if s != [] {
      assert s == [s[0]] + s[1..];
      NonSpaceCount(s[1..], c);
    }
  }

  /** Deleting whitespace distributes over concatenation. */
  lemma {:induction false} NonSpaceAppend(a: string, b: string)
    ensures NonSpace(a + b) == NonSpace(a) + NonSpace(b)
    decreases |a|
  {
    if a == [] {
      assert a + b == b;
    } else {
      assert (a + b)[0] == a[0];
      assert (a + b)[1..] == a[1..] + b;
      NonSpaceAppend(a[1..], b);
    }
  }

  lemma {:induction false} NonSpaceOfBlank(s: string)
    requires AllSpace(s)
    ensures NonSpace(s) == []
    decreases |s|
  {
    if s != [] {
      NonSpaceOfBlank(s[1..]);
    }
  }

  /** `strip()` removes whitespace only: the other characters, in order, are
      all still there. */
  lemma StripKeepsNonSpace(s: string)
    ensures NonSpace(Strip(s)) == NonSpace(s)
  {
    TrimStartKeepsNonSpace(s);
    TrimEndKeepsNonSpace(TrimStart(s));
  }

  lemma TrimStartKeepsNonSpace(s: string)
    ensures NonSpace(TrimStart(s)) == NonSpace(s)
  {
    var t := TrimStart(s);
    var k := |s| - |t|;
    if k > 0 {
      TrimStartIsSuffix(s);
      Reassemble(s, k);
      NonSpaceAppend(s[..k], t);
      NonSpaceOfBlank(s[..k]);
    }
  }

  lemma TrimEndKeepsNonSpace(t: string)
    ensures NonSpace(TrimEnd(t)) == NonSpace(t)
  {
    var r := TrimEnd(t);
    if r == [] {
      assert AllSpace(t);
      NonSpaceOfBlank(t);
    } else if |r| < |t| {
      TrimEndIsPrefix(t);
      Reassemble(t, |r|);
      NonSpaceAppend(r, t[|r|..]);
      NonSpaceOfBlank(t[|r|..]);
    } else {
      assert r == t;
    }
  }

  /** `lstrip()` of blank padding in front of text that starts with a
      non-space character gives that text back. */
  lemma {:induction false} TrimStartPadded(pad: string, x: string)
    requires AllSpace(pad)
    requires x == [] || !IsSpace(x[0])
    ensures TrimStart(pad + x) == x
    decreases |pad|
  {
    if pad == [] {
      assert pad + x == x;
    } else {
      assert (pad + x)[1..] == pad[1..] + x;
      TrimStartPadded(pad[1..], x);
    }
  }

  /** `rstrip()` of text that ends in a non-space character, followed by blank
      padding, gives that text back. */
  lemma {:induction false} TrimEndPadded(x: string, pad: string)
    requires AllSpace(pad)
    requires x == [] || !IsSpace(x[|x| - 1])
    ensures TrimEnd(x + pad) == x
    decreases |pad|
  {
    if pad == [] {
      assert x + pad == x;
    } else {
      var p := pad[..|pad| - 1];
      assert (x + pad)[..|x + pad| - 1] == x + p;
      TrimEndPadded(x, p);
    }
  }

  /** `strip()` of text with non-space ends between blank paddings. */
  lemma StripPadded(front: string, x: string, back: string)
    requires AllSpace(front) && AllSpace(back)
    requires x != [] && !IsSpace(x[0]) && !IsSpace(x[|x| - 1])
    ensures Strip(front + x + back) == x
  {
    assert front + x + back == front + (x + back);
    TrimStartPadded(front, x + back);
    TrimEndPadded(x, back);
  }

  /** The leading word ends where the first whitespace character is. */
  lemma {:induction false} WordEndAt(w: string, x: string)
    requires NoSpace(w)
    requires x == [] || IsSpace(x[0])
    ensures WordEnd(w + x) == |w|
    decreases |w|
  {
    if w == [] {
      assert w + x == x;
    } else {
      assert (w + x)[1..] == w[1..] + x;
      WordEndAt(w[1..], x);
    }
  }

  /** Joining words with single spaces yields single-spaced text, non-empty
      when there is at least one word. */
  lemma {:induction false} JoinSingleSpaced(ws: seq<string>)
    requires forall i :: 0 <= i < |ws| ==> IsWord(ws[i])
    ensures SingleSpaced(Join(ws))
    ensures ws != [] ==> Join(ws) != [] && !IsSpace(Join(ws)[0])
    decreases |ws|
  {
    if |ws| > 1 {
      var w, rest := ws[0], Join(ws[1..]);
      JoinSingleSpaced(ws[1..]);
      var j := w + " " + rest;
      assert j == Join(ws);
      forall i | 0 <= i < |j|
        ensures IsSpace(j[i]) ==> j[i] == ' '
        ensures i < |j| - 1 && IsSpace(j[i]) ==> !IsSpace(j[i + 1])
      {
        if i < |w| {
          assert j[i] == w[i];
          if i + 1 < |w| {
            assert j[i + 1] == w[i + 1];
          }
        } else if i == |w| {
          assert j[i + 1] == rest[0];
        } else {
          assert j[i] == rest[i - |w| - 1];
          if i < |j| - 1 {
            assert j[i + 1] == rest[i - |w|];
          }
        }
      }
    }
  }

  /** Leading blanks do not change the split. */
  lemma SplitSkipsBlank(pad: string, x: string)
    requires AllSpace(pad)
    requires x == [] || !IsSpace(x[0])
    ensures Split(pad + x) == Split(x)
  {
    TrimStartPadded(pad, x);
    TrimStartPadded([], x);
    assert [] + x == x;
  }

  /** A word followed by nothing or by whitespace is split off first. */
  lemma SplitLeadingWord(w: string, tail: string)
    requires IsWord(w)
    requires tail == [] || IsSpace(tail[0])
    ensures Split(w + tail) == [w] + Split(tail)
  {
    var t := w + tail;
    TrimStartPadded([], t);
    assert [] + t == t;
    WordEndAt(w, tail);
    assert t[..|w|] == w && t[|w|..] == tail;
  }

  lemma OneSpaceIsBlank()
    ensures AllSpace(" ")
  {
  }

  lemma Associative(a: string, b: string, c: string)
    ensures a + b + c == a + (b + c)
  {
  }

  lemma Reassemble(s: string, n: nat)
    requires n <= |s|
    ensures s[..n] + s[n..] == s
  {
  }

  lemma EmptyUnit(a: string)
    ensures [] + a == a && a + [] == a
  {
  }

  /** `str.split()` of text that starts with a word: that word, then the rest. */
  lemma SplitAfterWord(t: string)
    requires t != [] && !IsSpace(t[0])
    ensures Split(t) == [t[..WordEnd(t)]] + Split(t[WordEnd(t)..])
  {
    assert TrimStart(t) == t;
  }

  lemma JoinCons(w: string, ws: seq<string>)
    requires ws != []
    ensures Join([w] + ws) == w + " " + Join(ws)
  {
    assert ([w] + ws)[1..] == ws;
  }

  /** One word in front of a non-empty joined list is split off first. */
  lemma SplitJoinCons(w: string, more: seq<string>)
    requires IsWord(w) && more != []
    requires forall i :: 0 <= i < |more| ==> IsWord(more[i])
    ensures Split(Join([w] + more)) == [w] + Split(Join(more))
  {
    var rest := Join(more);
    JoinSingleSpaced(more);
    var tail := " " + rest;
    var ws := [w] + more;
    assert ws[0] == w && ws[1..] == more;
    assert Join(ws) == w + " " + rest;
    Associative(w, " ", rest);
    SplitLeadingWord(w, tail);
    OneSpaceIsBlank();
    SplitSkipsBlank(" ", rest);
  }

  /** Splitting undoes joining: `" ".join(ws).split() == ws` for words `ws`. */
  lemma {:induction false} SplitJoin(ws: seq<string>)
    requires forall i :: 0 <= i < |ws| ==> IsWord(ws[i])
    ensures Split(Join(ws)) == ws
    decreases |ws|
  {
    if |ws| == 1 {
      SplitLeadingWord(ws[0], []);
      assert ws[0] + [] == ws[0];
    } else if |ws| > 1 {
      var more := ws[1..];
      assert ws == [ws[0]] + more;
      SplitJoin(more);
      SplitJoinCons(ws[0], more);
    }
  }

  /** A suffix of single-spaced text that starts at a non-space character is
      itself single-spaced. */
  lemma SingleSpacedSuffix(s: string, k: nat)
    requires SingleSpaced(s) && k < |s| && !IsSpace(s[k])
    ensures SingleSpaced(s[k..])
  {
    var t := s[k..];
    assert t[|t| - 1] == s[|s| - 1];
    forall i, j | 0 <= i < |t| && 0 <= j < |t| && j == i + 1 && IsSpace(t[i])
      ensures !IsSpace(t[j])
    {
      assert t[i] == s[k + i] && t[j] == s[k + j];
    }
  }

  /** Inside single-spaced text, a word is followed by one plain space and
      then by the next word. */
  lemma SingleSpacedGap(s: string)
    requires SingleSpaced(s) && s != [] && WordEnd(s) < |s|
    ensures WordEnd(s) + 1 < |s|
    ensures s[WordEnd(s)] == ' ' && !IsSpace(s[WordEnd(s) + 1])
    ensures s[WordEnd(s)..] == " " + s[WordEnd(s) + 1..]
  {
    var n := WordEnd(s);
    assert 0 < n && IsSpace(s[n]);
    assert n + 1 < |s|;
    assert !IsSpace(s[n + 1]);
    DropCons(s, n);
  }

  /** A non-empty suffix is its first character followed by the rest. */
  lemma DropCons(s: string, k: nat)
    requires 0 < k < |s|
    ensures s[k..] == [s[k]] + s[k + 1..]
  {
  }

  /** Joining undoes splitting on single-spaced text:
      `" ".join(s.split()) == s`. */
  lemma {:induction false} JoinSplit(s: string)
    requires SingleSpaced(s)
    ensures Join(Split(s)) == s
    decreases |s|
  {
    if s == [] {
    } else if WordEnd(s) == |s| {
      assert TrimStart(s) == s;
      assert s[..|s|] == s && s[|s|..] == [];
      assert Split(s) == [s];
    } else {
      var n := WordEnd(s);
      SingleSpacedGap(s);
      var rest := s[n + 1..];
      SingleSpacedSuffix(s, n + 1);
      JoinSplit(rest);
      SplitAfterWord(s);
      OneSpaceIsBlank();
      SplitSkipsBlank(" ", rest);
      SplitEmpty(rest);
      JoinCons(s[..n], Split(rest));
      JoinSplitGlue(s, n);
    }
  }

  lemma JoinSplitGlue(s: string, n: nat)
    requires n < |s| && s[n..] == " " + s[n + 1..]
    ensures s[..n] + " " + s[n + 1..] == s
  {
    Reassemble(s, n);
    Associative(s[..n], " ", s[n + 1..]);
  }
}
