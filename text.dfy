/** The string splitting the terrain parser relies on: Python's
    `str.split("\n")`, which always yields at least one (possibly empty)
    piece and never drops an empty piece. */
module Text {

  const Newline: char := '\n'

  /** The pieces of s between newlines, in order. */
  function Split(s: string): (parts: seq<string>)
    ensures |parts| >= 1
    ensures forall k :: 0 <= k < |parts| ==> Newline !in parts[k]
  {
    if s == [] then [""]
    else
      var rest := Split(s[1..]);
      if s[0] == Newline then [""] + rest
      else [[s[0]] + rest[0]] + rest[1..]
  }

  /** The inverse of Split: the pieces glued back with a newline between
      consecutive pieces. */
  function Join(parts: seq<string>): string
    requires |parts| >= 1
  {
    if |parts| == 1 then parts[0]
    else parts[0] + [Newline] + Join(parts[1..])
  }

  /** Splitting loses nothing: gluing the pieces back gives the input. */
  lemma {:induction false} JoinSplit(s: string)
    ensures Join(Split(s)) == s
  {
    if s != [] {
      var rest := Split(s[1..]);
      JoinSplit(s[1..]);
      if s[0] == Newline {
        calc {
          Join(Split(s));
          Join([""] + rest);
          { assert ([""] + rest)[1..] == rest; }
          "" + [Newline] + Join(rest);
          [s[0]] + s[1..];
          s;
        }
      } else if |rest| == 1 {
        assert Split(s) == [[s[0]] + rest[0]];
      } else {
        var parts := Split(s);
        assert parts[0] == [s[0]] + rest[0];
        assert parts[1..] == rest[1..];
        calc {
          Join(parts);
          parts[0] + [Newline] + Join(rest[1..]);
          [s[0]] + (rest[0] + [Newline] + Join(rest[1..]));
          [s[0]] + Join(rest);
          s;
        }
      }
    }
  }

  /** Split is also a left inverse of Join on newline-free pieces, so the
      rows of a terrain string are exactly its newline-separated lines. */
  lemma {:induction false} SplitJoin(parts: seq<string>)
    requires |parts| >= 1
    requires forall k :: 0 <= k < |parts| ==> Newline !in parts[k]
    ensures Split(Join(parts)) == parts
  {
    if |parts| == 1 {
      SplitNoNewline(parts[0]);
    } else {
      SplitJoin(parts[1..]);
      SplitPrefix(parts[0], Join(parts[1..]));
    }
  }

  /** A newline-free string is a single piece. */
  lemma {:induction false} SplitNoNewline(s: string)
    requires Newline !in s
    ensures Split(s) == [s]
  {
    if s != [] {
      assert s[0] in s && forall c :: c in s[1..] ==> c in s;
      SplitNoNewline(s[1..]);
      assert [s[0]] + s[1..] == s;
    }
  }

  /** Splitting `w + "\n" + t` for a newline-free w gives w followed by the pieces of t. */
  lemma {:induction false} SplitPrefix(w: string, t: string)
    requires Newline !in w
    ensures Split(w + [Newline] + t) == [w] + Split(t)
  {
    if w == [] {
      assert w + [Newline] + t == [Newline] + t;
      assert ([Newline] + t)[1..] == t;
    } else {
      SplitPrefix(w[1..], t);
      var s := w + [Newline] + t;
      assert s[0] == w[0] && s[1..] == w[1..] + [Newline] + t;
      assert [w[0]] + w[1..] == w;
    }
  }
}
