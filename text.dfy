/** String helpers with the semantics the script relies on: Python's
    `str.split(sep)` with an explicit one-character separator, `sep.join(parts)`,
    and the whitespace tokenisation a libpq connection string is read with. */
module Text {

  /** Number of occurrences of `c` in `s`. */
  function Count(s: string, c: char): nat
  {
    if s == [] then 0 else (if s[0] == c then 1 else 0) + Count(s[1..], c)
  }

  /** `sep.join(parts)`. */
  function Join(parts: seq<string>, sep: string): string
  {
    if parts == [] then ""
    else if |parts| == 1 then parts[0]
    else parts[0] + sep + Join(parts[1..], sep)
  }

  /** `s.split(c)`: the pieces between the occurrences of `c`, empty ones kept;
      there is always one more piece than there are separators. */
  function Split(s: string, c: char): (parts: seq<string>)
    ensures |parts| == Count(s, c) + 1
    ensures forall i :: 0 <= i < |parts| ==> c !in parts[i]
  {
    if s == [] then [""]
    else
      var rest := Split(s[1..], c);
      if s[0] == c then [""] + rest
      else [[s[0]] + rest[0]] + rest[1..]
  }

  /** Joining the pieces with the separator gives back the string. */
  lemma {:induction false} JoinSplit(s: string, c: char)
    ensures Join(Split(s, c), [c]) == s
  {
    if s != [] {
      var rest := Split(s[1..], c);
      JoinSplit(s[1..], c);
      if s[0] == c {
        assert Split(s, c) == [""] + rest;
        assert ([""] + rest)[1..] == rest;
        assert s == [c] + s[1..];
      } else {
        var parts := Split(s, c);
        assert parts == [[s[0]] + rest[0]] + rest[1..];
        if |rest| == 1 {
          assert s[1..] == rest[0];
          assert s == [s[0]] + s[1..];
        } else {
          assert parts[1..] == rest[1..];
          assert Join(rest, [c]) == rest[0] + [c] + Join(rest[1..], [c]);
          assert s == [s[0]] + s[1..];
        }
      }
    }
  }

  /** Splitting a string made of separator-free pieces gives back the pieces. */
  lemma {:induction false} SplitJoin(parts: seq<string>, c: char)
    requires parts != []
    requires forall i :: 0 <= i < |parts| ==> c !in parts[i]
    ensures Split(Join(parts, [c]), c) == parts
  {
    if |parts| == 1 {
      SplitNoSeparator(parts[0], c);
    } else {
      var tail := parts[1..];
      forall i | 0 <= i < |tail| ensures c !in tail[i] {
        assert tail[i] == parts[i + 1];
      }
      SplitJoin(tail, c);
      assert c !in parts[0];
      assert Join(parts, [c]) == parts[0] + [c] + Join(tail, [c]);
      SplitPrefix(parts[0], Join(tail, [c]), c);
      assert [parts[0]] + tail == parts;
    }
  }

  lemma {:induction false} SplitNoSeparator(s: string, c: char)
    requires c !in s
    ensures Split(s, c) == [s]
  {
    if s != [] {
      SplitNoSeparator(s[1..], c);
      assert [s[0]] + s[1..] == s;
    }
  }

  lemma {:induction false} SplitPrefix(p: string, t: string, c: char)
    requires c !in p
    ensures Split(p + [c] + t, c) == [p] + Split(t, c)
  {
    if p == [] {
      assert ([] + [c] + t)[1..] == t;
    } else {
      SplitPrefix(p[1..], t, c);
      assert (p + [c] + t)[1..] == p[1..] + [c] + t;
      assert [p[0]] + p[1..] == p;
    }
  }

  /** Length of the separator-free prefix of `s`. */
  function WordEnd(s: string, c: char): (k: nat)
    ensures k <= |s|
    ensures c !in s[..k]
    ensures k < |s| ==> s[k] == c
  {
    if s == [] || s[0] == c then 0 else 1 + WordEnd(s[1..], c)
  }

  /** The blank-separated words of `s`: runs of spaces separate words and
      produce no empty word. It does not split on other whitespace and knows no
      escapes or quotes. */
  function Words(s: string): seq<string>
    decreases |s|
  {
    if s == [] then []
    else if s[0] == ' ' then Words(s[1..])
    else
      var k := WordEnd(s, ' ');
      [s[..k]] + Words(s[k..])
  }

  /** A word followed by nothing or by a blank is read as exactly that word. */
  lemma WordsOfWord(w: string, t: string)
    requires w != [] && ' ' !in w
    requires t == [] || t[0] == ' '
    ensures Words(w + t) == [w] + Words(t)
  {
    var s := w + t;
    WordEndOf(w, t, ' ');
    assert s[..|w|] == w && s[|w|..] == t;
  }

  /** The separator-free prefix of `w + t` is `w` when `t` starts with the separator. */
  lemma {:induction false} WordEndOf(w: string, t: string, c: char)
    requires c !in w
    requires t == [] || t[0] == c
    ensures WordEnd(w + t, c) == |w|
  {
    if w != [] {
      assert (w + t)[1..] == w[1..] + t;
      WordEndOf(w[1..], t, c);
    }
  }

  /** Leading blanks are skipped. */
  lemma WordsOfBlank(t: string)
    ensures Words(" " + t) == Words(t)
  {
    assert (" " + t)[1..] == t;
  }

  /** A word, a blank, then the rest: the word comes first. */
  lemma WordThen(w: string, t: string)
    requires w != [] && ' ' !in w
    ensures Words(w + (" " + t)) == [w] + Words(t)
  {
    WordsOfWord(w, " " + t);
    WordsOfBlank(t);
  }
}
