/**
 * The title and artist canonicaliser `clean` of compare.py: lower-case, drop every
 * " and ", drop a leading "the ", drop a trailing parenthesised suffix, then delete
 * every character of a fixed punctuation class (the space included).
 * Two names are the same for the matcher when their cleaned forms are equal.
 */
module Normalize {

  /** An ASCII upper-case letter. */
  predicate IsUpper(c: char) {
    'A' <= c <= 'Z'
  }

  /**
   * The character class `[\.,-\/#!$%\^&\*;:{}=\-_`~() ]`. Inside it `,-\/` is the
   * range from ',' to '/', which also takes in '-' and '.'.
   */
  predicate IsPunct(c: char) {
    c == '.' || (',' <= c <= '/') || c == '#' || c == '!' || c == '$' || c == '%' ||
    c == '^' || c == '&' || c == '*' || c == ';' || c == ':' || c == '{' || c == '}' ||
    c == '=' || c == '-' || c == '_' || c == '`' || c == '~' || c == '(' || c == ')' ||
    c == ' '
  }

  /** No ASCII upper-case letter occurs in s. */
  predicate NoUpper(s: string) {
    forall i :: 0 <= i < |s| ==> !IsUpper(s[i])
  }

  /** What `clean` promises of its result: no punctuation, no space, no upper-case letter. */
  predicate Canonical(s: string) {
    forall i :: 0 <= i < |s| ==> !IsPunct(s[i]) && !IsUpper(s[i])
  }

  /** `lower()` on one character; only ASCII letters are folded. */
  function LowerChar(c: char): (d: char)
    ensures !IsUpper(d)
    ensures IsUpper(c) ==> d as int == c as int + 32
    ensures !IsUpper(c) ==> d == c
  {
    if IsUpper(c) then (c as int - 'A' as int + 'a' as int) as char else c
  }

  /** Step 1: `a.lower()`. */
  function Lower(s: string): (r: string)
    ensures |r| == |s|
    ensures forall i :: 0 <= i < |s| ==> r[i] == LowerChar(s[i])
  {
    seq(|s|, i requires 0 <= i < |s| => LowerChar(s[i]))
  }

  /** s begins with the five characters " and ". */
  predicate StartsWithAnd(s: string) {
    |s| >= 5 && s[0] == ' ' && s[1] == 'a' && s[2] == 'n' && s[3] == 'd' && s[4] == ' '
  }

  /** s begins with the four characters "the ". */
  predicate StartsWithThe(s: string) {
    |s| >= 4 && s[0] == 't' && s[1] == 'h' && s[2] == 'e' && s[3] == ' '
  }

  /**
   * Step 2: `re.sub(' and ', '', a)`. The scan goes left to right and resumes after
   * each deleted occurrence, so occurrences never overlap.
   */
  function DeleteAnd(s: string): (r: string)
    decreases |s|
  {
    if StartsWithAnd(s) then DeleteAnd(s[5..])
    else if s == [] then []
    else [s[0]] + DeleteAnd(s[1..])
  }

  /** Step 3: `re.sub('^the ', '', a)`; `^` only matches at the start of the string. */
  function StripThe(s: string): (r: string)
    ensures r == s || s == "the " + r
  {
    if StartsWithThe(s) then s[4..] else s
  }

  /**
   * The position of the ')' that `\)$` can match: the last character, or the one
   * before a final newline (where `$` also matches); -1 when there is none.
   */
  function CloseAt(s: string): (e: int)
    ensures -1 <= e < |s|
    ensures e >= 0 ==> s[e] == ')'
  {
    if |s| >= 1 && s[|s| - 1] == ')' then |s| - 1
    else if |s| >= 2 && s[|s| - 1] == '\n' && s[|s| - 2] == ')' then |s| - 2
    else -1
  }

  /**
   * `' \(.+\)$'` matches from position i: a space, '(', at least one character
   * other than a newline (what `.` accepts), then the closing ')'.
   */
  predicate OpensAt(s: string, i: int) {
    0 <= i && i + 3 <= CloseAt(s) && s[i] == ' ' && s[i + 1] == '(' &&
    forall k :: i + 2 <= k < CloseAt(s) ==> s[k] != '\n'
  }

  /**
   * Step 4: `re.sub(' \(.+\)$', '', a)`. The scan tries each start position from the
   * left, and the first one where the pattern matches is cut out up to the ')'.
   */
  function StripParen(s: string): string
  {
    StripFrom(s, 0)
  }

  /** Step 4 with the scan resumed at position i. */
  function StripFrom(s: string, i: nat): string
    requires i <= |s|
    decreases |s| - i
  {
    if i == |s| then s
    else if OpensAt(s, i) then s[..i] + s[CloseAt(s) + 1..]
    else StripFrom(s, i + 1)
  }

  lemma {:induction false} StripFromKeeps(s: string, i: nat)
    requires i <= |s|
    requires forall k :: i <= k < |s| ==> !OpensAt(s, k)
    ensures StripFrom(s, i) == s
    decreases |s| - i
  {
    if i < |s| {
      StripFromKeeps(s, i + 1);
    }
  }

  lemma {:induction false} StripFromCuts(s: string, i: nat, m: nat)
    requires i <= m && OpensAt(s, m)
    requires forall k :: i <= k < m ==> !OpensAt(s, k)
    ensures i <= |s| && StripFrom(s, i) == s[..m] + s[CloseAt(s) + 1..]
    decreases m - i
  {
    if i < m {
      StripFromCuts(s, i + 1, m);
    }
  }

  /** Where the pattern matches nowhere, step 4 leaves the string alone. */
  lemma StripParenKeeps(s: string)
    requires forall i :: 0 <= i < |s| ==> !OpensAt(s, i)
    ensures StripParen(s) == s
  {
    StripFromKeeps(s, 0);
  }

  /**
   * Otherwise the leftmost match is cut from its space to the ')', and what follows the
   * ')' (a final newline) is kept.
   */
  lemma StripParenCuts(s: string, m: nat)
    requires OpensAt(s, m)
    requires forall k :: 0 <= k < m ==> !OpensAt(s, k)
    ensures StripParen(s) == s[..m] + s[CloseAt(s) + 1..]
  {
    StripFromCuts(s, 0, m);
  }

  /** Step 5: delete every character of the punctuation class. */
  function DropPunct(s: string): (r: string)
  {
    if s == [] then []
    else (if IsPunct(s[0]) then [] else [s[0]]) + DropPunct(s[1..])
  }

  /** `clean(a)`: the five steps in the order compare.py applies them. */
  function Clean(s: string): string
  {
    DropPunct(StripParen(StripThe(DeleteAnd(Lower(s)))))
  }

  /** A cleaned string holds no upper-case letter and no character of the punctuation class. */
  lemma CleanIsCanonical(s: string)
    ensures Canonical(Clean(s))
  {
    var lowered := Lower(s);
    var noThe := StripThe(DeleteAnd(lowered));
    DeleteAndKeepsLower(lowered);
    assert NoUpper(noThe);
    StripFromKeepsLower(noThe, 0);
    DropPunctSound(StripParen(noThe));
  }

  lemma {:induction false} StripFromKeepsLower(s: string, i: nat)
    requires i <= |s| && NoUpper(s)
    ensures NoUpper(StripFrom(s, i))
    decreases |s| - i
  {
    if i < |s| && !OpensAt(s, i) {
      StripFromKeepsLower(s, i + 1);
    }
  }

  lemma {:induction false} DeleteAndKeepsLower(s: string)
    ensures NoUpper(s) ==> NoUpper(DeleteAnd(s))
    decreases |s|
  {
    if StartsWithAnd(s) {
      DeleteAndKeepsLower(s[5..]);
    } else if s != [] {
      DeleteAndKeepsLower(s[1..]);
    }
  }

  /** Step 5 leaves no punctuation behind and adds no letter. */
  lemma {:induction false} DropPunctSound(s: string)
    ensures forall i :: 0 <= i < |DropPunct(s)| ==> !IsPunct(DropPunct(s)[i])
    ensures NoUpper(s) ==> NoUpper(DropPunct(s))
    decreases |s|
  {
    if s != [] {
      DropPunctSound(s[1..]);
    }
  }

  lemma {:induction false} DeleteAndKeepsSpaceless(s: string)
    requires ' ' !in s
    ensures DeleteAnd(s) == s
    decreases |s|
  {
    if s != [] {
      assert s[0] != ' ';
      DeleteAndKeepsSpaceless(s[1..]);
      assert s == [s[0]] + s[1..];
    }
  }

  lemma {:induction false} DropPunctKeepsPlain(s: string)
    requires forall i :: 0 <= i < |s| ==> !IsPunct(s[i])
    ensures DropPunct(s) == s
    decreases |s|
  {
    if s != [] {
      DropPunctKeepsPlain(s[1..]);
      assert s == [s[0]] + s[1..];
    }
  }

  /** A canonical string is its own cleaned form: `clean` projects onto canonical strings. */
  lemma CleanKeepsCanonical(s: string)
    requires Canonical(s)
    ensures Clean(s) == s
  {
    assert Lower(s) == s;
    assert ' ' !in s;
    DeleteAndKeepsSpaceless(s);
    assert StripThe(s) == s;
    assert StripParen(s) == s by {
      forall i | 0 <= i < |s| ensures !OpensAt(s, i) {
        assert !IsPunct(s[i]);
      }
      StripParenKeeps(s);
    }
    DropPunctKeepsPlain(s);
  }

  /** `clean` is idempotent. */
  lemma CleanIdempotent(s: string)
    ensures Clean(Clean(s)) == Clean(s)
  {
    CleanIsCanonical(s);
    CleanKeepsCanonical(Clean(s));
  }

  lemma {:induction false} DeleteAndSkipsWord(a: string, b: string)
    requires ' ' !in a
    ensures DeleteAnd(a + b) == a + DeleteAnd(b)
    decreases |a|
  {
    if a != [] {
      var s := a + b;
      assert s[0] == a[0] != ' ';
      assert s[1..] == a[1..] + b;
      DeleteAndSkipsWord(a[1..], b);
    } else {
      assert a + b == b;
    }
  }

  /** A space that does not open " and " is kept. */
  lemma DeleteAndKeepsSpace(b: string)
    requires !(|b| >= 4 && b[0] == 'a' && b[1] == 'n' && b[2] == 'd' && b[3] == ' ')
    ensures DeleteAnd(" " + b) == " " + DeleteAnd(b)
  {
    assert (" " + b)[1..] == b;
  }

  lemma {:induction false} DropPunctAppend(a: string, b: string)
    ensures DropPunct(a + b) == DropPunct(a) + DropPunct(b)
    decreases |a|
  {
    if a != [] {
      assert (a + b)[0] == a[0];
      assert (a + b)[1..] == a[1..] + b;
      DropPunctAppend(a[1..], b);
      var head := if IsPunct(a[0]) then [] else [a[0]];
      calc {
        DropPunct(a + b);
        head + DropPunct(a[1..] + b);
        head + (DropPunct(a[1..]) + DropPunct(b));
        (head + DropPunct(a[1..])) + DropPunct(b);
      }
    } else {
      assert a + b == b;
    }
  }

  /** A non-empty run of lower-case ASCII letters. */
  predicate Word(s: string) {
    |s| > 0 && forall i :: 0 <= i < |s| ==> 'a' <= s[i] <= 'z'
  }

  lemma WordIsCanonical(w: string)
    requires Word(w)
    ensures Canonical(w) && ' ' !in w && Lower(w) == w
  {
  }

  /** Steps 2 and 5 on two words joined by a space. */
  lemma DeleteAndTwoWords(x: string, y: string)
    requires Word(x) && Word(y)
    ensures DeleteAnd(x + " " + y) == x + " " + y
  {
    WordIsCanonical(x);
    WordIsCanonical(y);
    DeleteAndKeepsSpace(y);
    DeleteAndSkipsWord(y, "");
    assert y + "" == y;
    DeleteAndSkipsWord(x, " " + y);
    assert x + " " + y == x + (" " + y);
  }

  lemma DropPunctSpaceWord(y: string)
    requires Word(y)
    ensures DropPunct(" " + y) == y
  {
    assert (" " + y)[1..] == y;
    WordIsCanonical(y);
    DropPunctKeepsPlain(y);
  }

  lemma DropPunctTwoWords(x: string, y: string)
    requires Word(x) && Word(y)
    ensures DropPunct(x + " " + y) == x + y
  {
    WordIsCanonical(x);
    DropPunctAppend(x, " " + y);
    DropPunctKeepsPlain(x);
    DropPunctSpaceWord(y);
    assert x + " " + y == x + (" " + y);
  }

  /** Two words: the space goes, the letters stay. */
  lemma CleanTwoWords(x: string, y: string)
    requires Word(x) && Word(y) && x != "the"
    ensures Clean(x + " " + y) == x + y
  {
    var s := x + " " + y;
    WordIsCanonical(x);
    WordIsCanonical(y);
    assert Lower(s) == s;
    DeleteAndTwoWords(x, y);
    assert !StartsWithThe(s) by {
      assert |x| == 3 && StartsWithThe(s) ==> x == "the";
    }
    StripParenKeeps(s);
    DropPunctTwoWords(x, y);
  }

  /** Case does not matter: `clean` starts by lower-casing. */
  lemma CleanIgnoresCase(s: string)
    ensures Clean(s) == Clean(Lower(s))
  {
    assert Lower(Lower(s)) == Lower(s);
  }

  lemma DeleteAndArticle(x: string, y: string)
    requires Word(x) && Word(y) && x != "and"
    ensures DeleteAnd("the " + x + " " + y) == "the " + x + " " + y
  {
    var w := x + " " + y;
    assert "the " + x + " " + y == "the" + (" " + w);
    assert DeleteAnd(" " + w) == " " + w by {
      assert !(|w| >= 4 && w[0] == 'a' && w[1] == 'n' && w[2] == 'd' && w[3] == ' ') by {
        assert |x| == 3 && w[0] == 'a' && w[1] == 'n' && w[2] == 'd' ==> x == "and";
      }
      DeleteAndKeepsSpace(w);
      DeleteAndTwoWords(x, y);
    }
    DeleteAndSkipsWord("the", " " + w);
  }

  /** A leading "the" is dropped. */
  lemma CleanDropsArticle(x: string, y: string)
    requires Word(x) && Word(y) && x != "and"
    ensures Clean("the " + x + " " + y) == x + y
  {
    var w := x + " " + y;
    var s := "the " + x + " " + y;
    assert s[4..] == w;
    assert Lower(s) == s by {
      WordIsCanonical(x);
      WordIsCanonical(y);
    }
    assert StripThe(DeleteAnd(s)) == w by {
      DeleteAndArticle(x, y);
    }
    assert StripParen(w) == w by {
      WordIsCanonical(x);
      WordIsCanonical(y);
      StripParenKeeps(w);
    }
    DropPunctTwoWords(x, y);
  }

  lemma DeleteAndParenSuffix(y: string, z: string)
    requires Word(y) && Word(z)
    ensures DeleteAnd(y + " (" + z + ")") == y + " (" + z + ")"
  {
    var p := "(" + z + ")";
    assert y + " (" + z + ")" == y + (" " + p);
    assert DeleteAnd(p) == p by {
      WordIsCanonical(z);
      DeleteAndKeepsSpaceless(p);
    }
    assert DeleteAnd(" " + p) == " " + p by {
      DeleteAndKeepsSpace(p);
    }
    assert DeleteAnd(y + (" " + p)) == y + (" " + p) by {
      WordIsCanonical(y);
      DeleteAndSkipsWord(y, " " + p);
    }
  }

  lemma StripParenSuffix(w: string, z: string)
    requires Word(w) && Word(z)
    ensures StripParen(w + " (" + z + ")") == w
  {
    var s := w + " (" + z + ")";
    assert CloseAt(s) == |s| - 1;
    assert OpensAt(s, |w|);
    forall k | 0 <= k < |w| ensures !OpensAt(s, k) {
      assert s[k] == w[k];
    }
    assert s[..|w|] == w;
    StripParenCuts(s, |w|);
  }

  lemma DeleteAndJoins(x: string, y: string, z: string)
    requires Word(x) && Word(y) && Word(z)
    ensures DeleteAnd(x + " and " + y + " (" + z + ")") == x + y + " (" + z + ")"
  {
    var tail := y + " (" + z + ")";
    assert x + " and " + y + " (" + z + ")" == x + (" and " + tail);
    assert x + y + " (" + z + ")" == x + tail;
    assert DeleteAnd(" and " + tail) == tail by {
      assert (" and " + tail)[5..] == tail;
      DeleteAndParenSuffix(y, z);
    }
    assert DeleteAnd(x + (" and " + tail)) == x + tail by {
      WordIsCanonical(x);
      DeleteAndSkipsWord(x, " and " + tail);
    }
  }

  /** " and " and a trailing parenthesised suffix are dropped. */
  lemma CleanDropsAndAndSuffix(x: string, y: string, z: string)
    requires Word(x) && Word(y) && Word(z) && x + y != "the"
    ensures Clean(x + " and " + y + " (" + z + ")") == x + y
  {
    var s := x + " and " + y + " (" + z + ")";
    var xy := x + y;
    var t := xy + " (" + z + ")";
    WordIsCanonical(x);
    WordIsCanonical(y);
    WordIsCanonical(z);
    assert Lower(s) == s;
    DeleteAndJoins(x, y, z);
    assert Word(xy);
    assert !StartsWithThe(t) by {
      assert |xy| == 3 && StartsWithThe(t) ==> xy == "the";
    }
    StripParenSuffix(xy, z);
    WordIsCanonical(xy);
    DropPunctKeepsPlain(xy);
  }

  // The worked examples below name their input through a parameter bound to the literal,
  // which keeps the verifier from evaluating `clean` on the literal character by character.

  lemma LowerVelvetUnderground(s: string)
    requires s == "The Velvet Underground"
    ensures Lower(s) == "the " + "velvet" + " " + "underground"
  {
    forall i | 0 <= i < |s| ensures Lower(s)[i] == ("the " + "velvet" + " " + "underground")[i] {
    }
  }

  /** "The Velvet Underground" cleans to "velvetunderground". */
  lemma CleanTheVelvetUnderground(s: string)
    requires s == "The Velvet Underground"
    ensures Clean(s) == "velvetunderground"
  {
    assert Clean(s) == Clean("the " + "velvet" + " " + "underground") by {
      LowerVelvetUnderground(s);
      CleanIgnoresCase(s);
    }
    assert Word("velvet") && Word("underground");
    CleanDropsArticle("velvet", "underground");
  }

  /** "velvet underground" cleans to the same key. */
  lemma CleanVelvetUnderground(s: string)
    requires s == "velvet underground"
    ensures Clean(s) == "velvetunderground"
  {
    assert Word("velvet") && Word("underground");
    assert s == "velvet" + " " + "underground";
    CleanTwoWords("velvet", "underground");
  }

  lemma LowerBoyAndBearDeluxe(s: string)
    requires s == "Boy and Bear (Deluxe)"
    ensures Lower(s) == "boy" + " and " + "bear" + " (" + "deluxe" + ")"
  {
    forall i | 0 <= i < |s| ensures Lower(s)[i] == ("boy" + " and " + "bear" + " (" + "deluxe" + ")")[i] {
    }
  }

  /** "Boy and Bear (Deluxe)" cleans to "boybear". */
  lemma CleanBoyAndBearDeluxe(s: string)
    requires s == "Boy and Bear (Deluxe)"
    ensures Clean(s) == "boybear"
  {
    assert Clean(s) == Clean("boy" + " and " + "bear" + " (" + "deluxe" + ")") by {
      LowerBoyAndBearDeluxe(s);
      CleanIgnoresCase(s);
    }
    assert Word("boy") && Word("bear") && Word("deluxe");
    CleanDropsAndAndSuffix("boy", "bear", "deluxe");
  }

  /** "Boy Bear" cleans to the same key. */
  lemma CleanBoyBear(s: string)
    requires s == "Boy Bear"
    ensures Clean(s) == "boybear"
  {
    assert Lower(s) == "boy" + " " + "bear" by {
      forall i | 0 <= i < |s| ensures Lower(s)[i] == ("boy" + " " + "bear")[i] {
      }
    }
    assert Word("boy") && Word("bear");
    CleanIgnoresCase(s);
    CleanTwoWords("boy", "bear");
  }
}
