/** Splitting the maze text into rows, as String.prototype.split does with a
    one-character separator, and joining the rows back. */
module Lines {

  /** The pieces of `s` between occurrences of `sep`; the empty text is one empty piece. */
  function Split(s: string, sep: char): (pieces: seq<string>)
    ensures |pieces| >= 1
    ensures forall k :: 0 <= k < |pieces| ==> sep !in pieces[k]
    decreases |s|
  {
    if s == [] then [[]]
    else
      var rest := Split(s[1..], sep);
      if s[0] == sep then [[]] + rest
      else [[s[0]] + rest[0]] + rest[1..]
  }

  /** The pieces glued back together with `sep` between neighbours. */
  function Join(pieces: seq<string>, sep: char): string
    requires |pieces| >= 1
    decreases |pieces|
  {
    if |pieces| == 1 then pieces[0] else pieces[0] + [sep] + Join(pieces[1..], sep)
  }

  /** Splitting loses nothing: joining the pieces gives the text back. */
  lemma {:induction false} JoinSplit(s: string, sep: char)
    ensures Join(Split(s, sep), sep) == s
    decreases |s|
  {
    if s != [] {
      var rest := Split(s[1..], sep);
      JoinSplit(s[1..], sep);
      if s[0] == sep {
        assert Split(s, sep) == [[]] + rest;
        assert ([[]] + rest)[1..] == rest;
        assert s == [] + [sep] + s[1..];
      } else {
        var pieces := [[s[0]] + rest[0]] + rest[1..];
        assert Split(s, sep) == pieces;
        if |rest| == 1 {
          assert s == [s[0]] + rest[0];
        } else {
          assert pieces[1..] == rest[1..];
          assert Join(rest, sep) == rest[0] + [sep] + Join(rest[1..], sep);
          assert s == ([s[0]] + rest[0]) + [sep] + Join(rest[1..], sep);
        }
      }
    }
  }

  /** A separator-free prefix stays glued to the first piece. */
  lemma {:induction false} SplitPrefix(a: string, t: string, sep: char)
    requires sep !in a
    ensures Split(a + t, sep) == [a + Split(t, sep)[0]] + Split(t, sep)[1..]
    decreases |a|
  {
    if a != [] {
      var pieces := Split(t, sep);
      assert (a + t)[0] == a[0] && (a + t)[1..] == a[1..] + t;
      SplitPrefix(a[1..], t, sep);
      var rest := Split(a[1..] + t, sep);
      assert rest[0] == a[1..] + pieces[0] && rest[1..] == pieces[1..];
      assert Split(a + t, sep) == [[a[0]] + rest[0]] + rest[1..];
      assert [a[0]] + (a[1..] + pieces[0]) == a + pieces[0];
    } else {
      var pieces := Split(t, sep);
      assert a + t == t && a + pieces[0] == pieces[0];
      assert pieces == [pieces[0]] + pieces[1..];
    }
  }

  /** Joining pieces that hold no separator and splitting again gives the pieces back. */
  lemma {:induction false} SplitJoin(pieces: seq<string>, sep: char)
    requires |pieces| >= 1
    requires forall k :: 0 <= k < |pieces| ==> sep !in pieces[k]
    ensures Split(Join(pieces, sep), sep) == pieces
    decreases |pieces|
  {
    if |pieces| == 1 {
      SplitPrefix(pieces[0], [], sep);
      assert pieces[0] + [] == pieces[0];
    } else {
      var tail := Join(pieces[1..], sep);
      SplitJoin(pieces[1..], sep);
      assert Join(pieces, sep) == pieces[0] + ([sep] + tail);
      SplitPrefix(pieces[0], [sep] + tail, sep);
      assert ([sep] + tail)[1..] == tail;
      assert Split([sep] + tail, sep) == [[]] + pieces[1..];
      assert pieces[0] + [] == pieces[0];
      assert pieces == [pieces[0]] + pieces[1..];
    }
  }
}
