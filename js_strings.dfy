/**
 * The two JavaScript string operations the flag parser relies on:
 * `String.prototype.trim` and `String.prototype.split` with a one-character
 * separator. Strings are sequences of Unicode scalar values.
 */
module JsStrings {

  /** The code points ECMAScript's `trim` removes: WhiteSpace and LineTerminator. */
  predicate IsWhiteSpace(c: char) {
    || c == '\U{9}' || c == '\U{A}' || c == '\U{B}' || c == '\U{C}' || c == '\U{D}'
    || c == '\U{20}' || c == '\U{A0}' || c == '\U{1680}'
    || ('\U{2000}' <= c <= '\U{200A}')
    || c == '\U{2028}' || c == '\U{2029}' || c == '\U{202F}' || c == '\U{205F}'
    || c == '\U{3000}' || c == '\U{FEFF}'
  }

  predicate AllWhiteSpace(s: string) {
    forall k :: 0 <= k < |s| ==> IsWhiteSpace(s[k])
  }

  /** Neither end of `s` is white space (vacuously true of the empty string). */
  predicate Tight(s: string) {
    s != [] ==> !IsWhiteSpace(s[0]) && !IsWhiteSpace(s[|s| - 1])
  }

  /** `s` with its leading white space removed. */
  function TrimStart(s: string): string {
    if s != [] && IsWhiteSpace(s[0]) then TrimStart(s[1..]) else s
  }

  /** TrimStart removes a prefix of white space and stops at the first other character. */
  lemma {:induction false} TrimStartCuts(s: string)
    ensures var r := TrimStart(s);
            && |r| <= |s| && r == s[|s| - |r|..]
            && AllWhiteSpace(s[..|s| - |r|])
            && (r != [] ==> !IsWhiteSpace(r[0]))
    decreases |s|
  {
    if s != [] && IsWhiteSpace(s[0]) {
      TrimStartCuts(s[1..]);
      var r := TrimStart(s);
      assert s[..|s| - |r|] == [s[0]] + s[1..][..|s| - 1 - |r|];
    }
  }

  /** `s` with its trailing white space removed. */
  function TrimEnd(s: string): string {
    if s != [] && IsWhiteSpace(s[|s| - 1]) then TrimEnd(s[..|s| - 1]) else s
  }

  /** TrimEnd removes a suffix of white space and stops at the last other character. */
  lemma {:induction false} TrimEndCuts(s: string)
    ensures var r := TrimEnd(s);
            && |r| <= |s| && r == s[..|r|]
            && AllWhiteSpace(s[|r|..])
            && (r != [] ==> !IsWhiteSpace(r[|r| - 1]))
    decreases |s|
  {
    if s != [] && IsWhiteSpace(s[|s| - 1]) {
      var t := s[..|s| - 1];
      TrimEndCuts(t);
      var r := TrimEnd(s);
      assert s[|r|..] == t[|r|..] + [s[|s| - 1]];
    }
  }

  /** `String.prototype.trim`: white space removed from both ends. */
  function Trim(s: string): (r: string)
    ensures Tight(r)
  {
    TrimStartCuts(s);
    TrimEndCuts(TrimStart(s));
    TrimEnd(TrimStart(s))
  }

  /**
   * The trimmed text is an infix of the original, and everything cut off
   * around it is white space.
   */
  lemma TrimIsInfix(s: string)
    ensures var r := Trim(s);
            exists i | 0 <= i <= |s| - |r| :: s[i..i + |r|] == r && AllWhiteSpace(s[..i]) && AllWhiteSpace(s[i + |r|..])
  {
    var t := TrimStart(s);
    var r := TrimEnd(t);
    TrimStartCuts(s);
    TrimEndCuts(t);
    var i := |s| - |t|;
    assert s[i..i + |r|] == r;
    assert s[i + |r|..] == t[|r|..];
  }

  lemma {:induction false} TrimStartOfPadded(pre: string, rest: string)
    requires AllWhiteSpace(pre) && (rest != [] ==> !IsWhiteSpace(rest[0]))
    ensures TrimStart(pre + rest) == rest
    decreases |pre|
  {
    if pre != [] {
      assert (pre + rest)[1..] == pre[1..] + rest;
      TrimStartOfPadded(pre[1..], rest);
    } else {
      assert pre + rest == rest;
    }
  }

  lemma {:induction false} TrimEndOfPadded(rest: string, post: string)
    requires AllWhiteSpace(post) && (rest != [] ==> !IsWhiteSpace(rest[|rest| - 1]))
    ensures TrimEnd(rest + post) == rest
    decreases |post|
  {
    if post != [] {
      assert (rest + post)[..|rest + post| - 1] == rest + post[..|post| - 1];
      TrimEndOfPadded(rest, post[..|post| - 1]);
    } else {
      assert rest + post == rest;
    }
  }

  /** Padding a tight string with white space on both sides and trimming gives it back. */
  lemma TrimRemovesPadding(pre: string, t: string, post: string)
    requires AllWhiteSpace(pre) && AllWhiteSpace(post) && Tight(t)
    ensures Trim(pre + t + post) == t
  {
    if t == [] {
      assert AllWhiteSpace(pre + post);
      TrimStartOfPadded(pre + post, []);
      TrimEndOfPadded([], []);
      assert pre + t + post == (pre + post) + [];
    } else {
      TrimStartOfPadded(pre, t + post);
      assert pre + t + post == pre + (t + post);
      TrimEndOfPadded(t, post);
    }
  }

  /** Trimming twice is trimming once. */
  lemma TrimIdempotent(s: string)
    ensures Trim(Trim(s)) == Trim(s)
  {
    TrimRemovesPadding([], Trim(s), []);
    assert [] + Trim(s) + [] == Trim(s);
  }

  /** A character that is not white space survives trimming. */
  lemma TrimKeeps(s: string, k: nat)
    requires k < |s| && !IsWhiteSpace(s[k])
    ensures s[k] in Trim(s)
  {
    var t := TrimStart(s);
    TrimStartCuts(s);
    TrimEndCuts(t);
    var d := |s| - |t|;
    if k < d {
      assert false;
    }
    assert t[k - d] == s[k];
    var r := TrimEnd(t);
    if k - d >= |r| {
      assert false;
    }
    assert r[k - d] == s[k];
  }

  /** Trimming only removes characters: whatever is in the result was in the input. */
  lemma TrimOnlyRemoves(s: string, c: char)
    requires c in Trim(s)
    ensures c in s
  {
    var t := TrimStart(s);
    var r := TrimEnd(t);
    TrimStartCuts(s);
    TrimEndCuts(t);
    var k :| 0 <= k < |r| && r[k] == c;
    assert t[k] == c;
    assert s[|s| - |t| + k] == c;
  }

  /** Index of the first `c` in `s`, or |s| when there is none. */
  function IndexOf(s: string, c: char): (j: nat)
    ensures j <= |s|
    ensures c !in s[..j]
    ensures j < |s| ==> s[j] == c
    ensures j == |s| <==> c !in s
  {
    if s == [] then 0
    else if s[0] == c then 0
    else
      var j := 1 + IndexOf(s[1..], c);
      assert s[..j] == [s[0]] + s[1..][..j - 1];
      j
  }

  /** The first separator of `name + [sep] + rest` is the one after `name` when `name` has none. */
  lemma {:induction false} IndexOfAfterPrefix(name: string, sep: char, rest: string)
    requires sep !in name
    ensures IndexOf(name + [sep] + rest, sep) == |name|
    ensures (name + [sep] + rest)[..|name|] == name && (name + [sep] + rest)[|name| + 1..] == rest
    decreases |name|
  {
    var v := name + [sep] + rest;
    if name != [] {
      assert v[0] == name[0] != sep;
      assert v[1..] == name[1..] + [sep] + rest;
      assert sep !in name[1..] by { assert forall k :: 0 <= k < |name[1..]| ==> name[1..][k] == name[k + 1]; }
      IndexOfAfterPrefix(name[1..], sep, rest);
    }
  }

  /**
   * `s.split(sep)` for a one-character separator: the maximal runs of text
   * between separators, in order. It always yields at least one piece.
   */
  function Split(s: string, sep: char): (pieces: seq<string>)
    ensures |pieces| >= 1
  {
    if s == [] then [""]
    else
      var rest := Split(s[1..], sep);
      if s[0] == sep then [""] + rest
      else [[s[0]] + rest[0]] + rest[1..]
  }

  /** No piece holds the separator, and joining the pieces with it restores the string. */
  lemma {:induction false} SplitJoin(s: string, sep: char)
    ensures forall k :: 0 <= k < |Split(s, sep)| ==> sep !in Split(s, sep)[k]
    ensures Join(Split(s, sep), sep) == s
    decreases |s|
  {
    if s != [] {
      var rest := Split(s[1..], sep);
      SplitJoin(s[1..], sep);
      if s[0] == sep {
        assert Join([""] + rest, sep) == [sep] + Join(rest, sep);
      } else {
        JoinGrowFirst(s[0], rest, sep);
      }
    }
  }

  /** The inverse of Split: the pieces glued back together with `sep` between them. */
  function Join(pieces: seq<string>, sep: char): string
    requires |pieces| >= 1
  {
    if |pieces| == 1 then pieces[0] else pieces[0] + [sep] + Join(pieces[1..], sep)
  }

  lemma JoinGrowFirst(c: char, pieces: seq<string>, sep: char)
    requires |pieces| >= 1
    ensures Join([[c] + pieces[0]] + pieces[1..], sep) == [c] + Join(pieces, sep)
  {
    var grown := [[c] + pieces[0]] + pieces[1..];
    if |pieces| > 1 {
      assert grown[1..] == pieces[1..];
    }
  }

  /**
   * The first piece of a split is the text before the first separator; there
   * is a second piece exactly when the separator occurs, and the pieces after
   * the first are the split of the text after that separator.
   */
  lemma SplitHead(s: string, sep: char)
    ensures Split(s, sep)[0] == s[..IndexOf(s, sep)]
    ensures |Split(s, sep)| >= 2 <==> sep in s
    ensures sep in s ==> Split(s, sep)[1..] == Split(s[IndexOf(s, sep) + 1..], sep)
  {
    if sep in s {
      SplitAtSeparator(s, sep, IndexOf(s, sep));
    } else {
      SplitNoSeparator(s, sep);
    }
  }

  /** Split is the only way to cut `s` into separator-free pieces that Join gives back. */
  lemma {:induction false} SplitUnique(s: string, sep: char, pieces: seq<string>)
    requires |pieces| >= 1 && Join(pieces, sep) == s
    requires forall k :: 0 <= k < |pieces| ==> sep !in pieces[k]
    ensures pieces == Split(s, sep)
    decreases |s|
  {
    if |pieces| == 1 {
      assert sep !in s;
      SplitNoSeparator(s, sep);
    } else {
      var tail := pieces[1..];
      var rest := s[|pieces[0]| + 1..];
      assert s == pieces[0] + [sep] + Join(tail, sep);
      assert rest == Join(tail, sep);
      SplitUnique(rest, sep, tail);
      var j := |pieces[0]|;
      assert s[..j] == pieces[0] && s[j] == sep;
      SplitAtSeparator(s, sep, j);
      assert pieces == [pieces[0]] + tail;
    }
  }

  /** A string without the separator splits into itself. */
  lemma {:induction false} SplitNoSeparator(s: string, sep: char)
    requires sep !in s
    ensures Split(s, sep) == [s]
    decreases |s|
  {
    if s != [] {
      assert sep !in s[1..] by {
        forall k | 0 <= k < |s[1..]| ensures s[1..][k] != sep { assert s[1..][k] == s[k + 1]; }
      }
      SplitNoSeparator(s[1..], sep);
      assert [s[0]] + s[1..] == s;
    }
  }

  /** Splitting at the first separator: the text before it, then the split of the text after it. */
  lemma {:induction false} SplitAtSeparator(s: string, sep: char, j: nat)
    requires j < |s| && s[j] == sep && sep !in s[..j]
    ensures Split(s, sep) == [s[..j]] + Split(s[j + 1..], sep)
    decreases j
  {
    if j > 0 {
      assert s[1..][j - 1] == sep;
      assert sep !in s[1..][..j - 1] by { assert s[1..][..j - 1] == s[..j][1..]; }
      SplitAtSeparator(s[1..], sep, j - 1);
      assert s[1..][j..] == s[j + 1..];
      assert [s[0]] + s[1..][..j - 1] == s[..j];
    }
  }
}
