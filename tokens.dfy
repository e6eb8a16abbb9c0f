/**
 * Python's `str.split(sep)` with an explicit one-character separator, as the
 * Spotify matcher applies it to the space-separated territory list.
 */
module Tokens {

  /**
   * Every occurrence of sep ends a token, so adjacent separators and separators at
   * either end give empty tokens, and the empty string gives one empty token.
   */
  function Split(s: string, sep: char): (r: seq<string>)
    ensures |r| >= 1
    ensures forall i :: 0 <= i < |r| ==> sep !in r[i]
    decreases |s|
  {
    if s == [] then [""]
    else
      var rest := Split(s[1..], sep);
      if s[0] == sep then [""] + rest
      else [[s[0]] + rest[0]] + rest[1..]
  }

  /** `sep.join(ts)`, the inverse of Split. */
  function Join(ts: seq<string>, sep: char): string
    decreases |ts|
  {
    if ts == [] then ""
    else if |ts| == 1 then ts[0]
    else ts[0] + [sep] + Join(ts[1..], sep)
  }

  /** Joining the tokens back with the separator gives the original string. */
  lemma {:induction false} JoinSplit(s: string, sep: char)
    ensures Join(Split(s, sep), sep) == s
    decreases |s|
  {
    if s != [] {
      var rest := Split(s[1..], sep);
      JoinSplit(s[1..], sep);
      if s[0] == sep {
        assert Split(s, sep) == [""] + rest;
        assert ([""] + rest)[1..] == rest;
        assert Join(Split(s, sep), sep) == "" + [sep] + Join(rest, sep);
        assert s == [s[0]] + s[1..];
      } else {
        var r := Split(s, sep);
        assert r == [[s[0]] + rest[0]] + rest[1..];
        if |rest| == 1 {
          assert Join(r, sep) == [s[0]] + rest[0];
          assert s == [s[0]] + s[1..];
        } else {
          assert r[1..] == rest[1..];
          assert Join(rest, sep) == rest[0] + [sep] + Join(rest[1..], sep);
          assert Join(r, sep) == [s[0]] + rest[0] + [sep] + Join(rest[1..], sep);
          assert s == [s[0]] + s[1..];
        }
      }
    }
  }

  /** Splitting t + tail, where t holds no separator, glues t onto the first token of the tail. */
  lemma {:induction false} SplitAfterToken(t: string, tail: string, sep: char)
    requires sep !in t
    ensures Split(t + tail, sep) == [t + Split(tail, sep)[0]] + Split(tail, sep)[1..]
    decreases |t|
  {
    if t == [] {
      var S := Split(tail, sep);
      assert t + tail == tail;
      assert t + S[0] == S[0];
      assert [S[0]] + S[1..] == S;
    } else {
      var s := t + tail;
      assert s[0] == t[0] && s[1..] == t[1..] + tail;
      SplitAfterToken(t[1..], tail, sep);
      var S := Split(tail, sep);
      var R := Split(s[1..], sep);
      assert R == [t[1..] + S[0]] + S[1..];
      assert t[0] != sep;
      assert Split(s, sep) == [[t[0]] + R[0]] + R[1..];
      assert R[0] == t[1..] + S[0] && R[1..] == S[1..];
      assert [t[0]] + (t[1..] + S[0]) == t + S[0];
    }
  }

  /** Splitting a join of separator-free tokens gives the tokens back. */
  lemma {:induction false} SplitJoin(ts: seq<string>, sep: char)
    requires |ts| >= 1
    requires forall i :: 0 <= i < |ts| ==> sep !in ts[i]
    ensures Split(Join(ts, sep), sep) == ts
    decreases |ts|
  {
    if |ts| == 1 {
      SplitAfterToken(ts[0], "", sep);
      assert ts[0] + "" == ts[0];
    } else {
      var rest := Join(ts[1..], sep);
      SplitJoin(ts[1..], sep);
      assert Split([sep] + rest, sep) == [""] + ts[1..] by {
        assert ([sep] + rest)[1..] == rest;
      }
      SplitAfterToken(ts[0], [sep] + rest, sep);
      assert ts[0] + [sep] + rest == ts[0] + ([sep] + rest);
      assert ts[0] + "" == ts[0];
      assert ([""] + ts[1..])[1..] == ts[1..];
      assert ts == [ts[0]] + ts[1..];
    }
  }
}
