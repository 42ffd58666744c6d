/** The parts of Rust's `str` API that the memcache response parser relies on:
    `split("\r\n")`, `join`, `split_whitespace` and `len()`.

    A Rust `&str` is a sequence of Unicode scalar values stored as UTF-8; a Dafny
    `string` is a sequence of Unicode scalar values, so `len()` (a byte count) is
    modelled as the UTF-8 width of the characters, not as `|s|`. */
module RustStr {

  /** The memcached line terminator. */
  const CRLF: string := "\r\n"

  // ---------------------------------------------------------------------------
  // Byte length
  // ---------------------------------------------------------------------------

  /** Number of bytes UTF-8 uses to encode `c`. */
  function Utf8Width(c: char): (n: nat)
    ensures 1 <= n <= 4
    ensures n == 1 <==> c as int < 0x80
  {
    if c as int < 0x80 then 1
    else if c as int < 0x800 then 2
    else if c as int < 0x1_0000 then 3
    else 4
  }

  /** `str::len`: the length of `s` in bytes. */
  function ByteLen(s: string): (n: nat)
    ensures |s| <= n <= 4 * |s|
  {
    if s == [] then 0 else Utf8Width(s[0]) + ByteLen(s[1..])
  }

  lemma {:induction false} ByteLenConcat(a: string, b: string)
    ensures ByteLen(a + b) == ByteLen(a) + ByteLen(b)
  {
    if a == [] {
      assert a + b == b;
    } else {
      assert (a + b)[1..] == a[1..] + b;
      ByteLenConcat(a[1..], b);
    }
  }

  /** On ASCII text the byte length is the character count. */
  lemma {:induction false} ByteLenAscii(s: string)
    requires forall i :: 0 <= i < |s| ==> s[i] as int < 0x80
    ensures ByteLen(s) == |s|
  {
    if s != [] {
      ByteLenAscii(s[1..]);
    }
  }

  // ---------------------------------------------------------------------------
  // Splitting on CRLF and joining with CRLF
  // ---------------------------------------------------------------------------

  predicate EndsWithCrlf(s: string) {
    |s| >= 2 && s[|s| - 2] == '\r' && s[|s| - 1] == '\n'
  }

  /** `s` has no CRLF pair anywhere (a lone `\r` or `\n` is allowed). */
  predicate NoCrlf(s: string) {
    forall i :: 0 <= i < |s| - 1 ==> !(s[i] == '\r' && s[i + 1] == '\n')
  }

  /** `s.split("\r\n").collect()`: the pieces between the CRLF occurrences,
      found left to right. There is always at least one piece; a buffer that
      ends in CRLF (or is empty) has an empty last piece. */
  function SplitCrlf(s: string): (pieces: seq<string>)
    ensures |pieces| >= 1
    decreases |s|
  {
    if |s| < 2 then [s]
    else if s[0] == '\r' && s[1] == '\n' then [""] + SplitCrlf(s[2..])
    else
      var rest := SplitCrlf(s[1..]);
      [[s[0]] + rest[0]] + rest[1..]
  }

  /** `pieces.join("\r\n")`. */
  function JoinCrlf(pieces: seq<string>): string {
    if |pieces| == 0 then ""
    else if |pieces| == 1 then pieces[0]
    else pieces[0] + CRLF + JoinCrlf(pieces[1..])
  }

  /** Joining the pieces with CRLF gives back the string that was split. */
  lemma {:induction false} JoinSplit(s: string)
    ensures JoinCrlf(SplitCrlf(s)) == s
    decreases |s|
  {
    if |s| < 2 {
    } else if s[0] == '\r' && s[1] == '\n' {
      var rest := SplitCrlf(s[2..]);
      assert SplitCrlf(s) == [""] + rest;
      JoinSplit(s[2..]);
      JoinCons("", rest);
      assert "" + CRLF == CRLF;
      SplitOffCrlf(s);
    } else {
      var rest := SplitCrlf(s[1..]);
      assert SplitCrlf(s) == [[s[0]] + rest[0]] + rest[1..];
      JoinSplit(s[1..]);
      JoinPrepend(s[0], rest);
      SplitOffChar(s);
    }
  }

  lemma SplitOffCrlf(s: string)
    requires |s| >= 2 && s[0] == '\r' && s[1] == '\n'
    ensures s == CRLF + s[2..]
  {
  }

  lemma SplitOffChar(s: string)
    requires |s| >= 1
    ensures s == [s[0]] + s[1..]
  {
  }

  /** Joining a first piece onto further pieces puts a CRLF between. */
  lemma JoinCons(first: string, rest: seq<string>)
    requires |rest| >= 1
    ensures JoinCrlf([first] + rest) == first + CRLF + JoinCrlf(rest)
  {
    assert ([first] + rest)[1..] == rest;
  }

  /** A character added to the front of the first piece comes out at the
      front of the join. */
  lemma JoinPrepend(c: char, pieces: seq<string>)
    requires |pieces| >= 1
    ensures JoinCrlf([[c] + pieces[0]] + pieces[1..]) == [c] + JoinCrlf(pieces)
  {
    var joined := [[c] + pieces[0]] + pieces[1..];
    if |pieces| == 1 {
      assert joined == [[c] + pieces[0]];
    } else {
      assert joined[1..] == pieces[1..];
      AppendAssoc([c], pieces[0], CRLF, JoinCrlf(pieces[1..]));
    }
  }

  /** Regrouping a concatenation of four strings. */
  lemma AppendAssoc(a: string, b: string, c: string, d: string)
    ensures (a + b) + c + d == a + (b + c + d)
  {
  }

  /** Every piece of a split is free of CRLF. */
  lemma {:induction false} SplitPiecesNoCrlf(s: string)
    ensures forall k :: 0 <= k < |SplitCrlf(s)| ==> NoCrlf(SplitCrlf(s)[k])
    decreases |s|
  {
    if |s| < 2 {
    } else if s[0] == '\r' && s[1] == '\n' {
      SplitPiecesNoCrlf(s[2..]);
      var rest := SplitCrlf(s[2..]);
      assert forall k :: 1 <= k < |rest| + 1 ==> ([""] + rest)[k] == rest[k - 1];
    } else {
      SplitPiecesNoCrlf(s[1..]);
      var rest := SplitCrlf(s[1..]);
      var first := [s[0]] + rest[0];
      assert NoCrlf(rest[0]);
      forall i | 0 <= i < |first| - 1
        ensures !(first[i] == '\r' && first[i + 1] == '\n')
      {
        if i > 0 {
          assert first[i] == rest[0][i - 1] && first[i + 1] == rest[0][i];
        } else {
          assert first[1] == rest[0][0] == s[1];
        }
      }
      var pieces := [first] + rest[1..];
      assert forall k :: 1 <= k < |pieces| ==> pieces[k] == rest[k];
    }
  }

  /** A string without CRLF splits into itself alone. */
  lemma {:induction false} SplitNoCrlf(s: string)
    requires NoCrlf(s)
    ensures SplitCrlf(s) == [s]
    decreases |s|
  {
    if |s| >= 2 {
      assert !(s[0] == '\r' && s[1] == '\n');
      assert NoCrlf(s[1..]) by {
        forall i | 0 <= i < |s[1..]| - 1
          ensures !(s[1..][i] == '\r' && s[1..][i + 1] == '\n')
        {
          assert s[1..][i] == s[i + 1] && s[1..][i + 1] == s[i + 2];
        }
      }
      SplitNoCrlf(s[1..]);
      var rest := SplitCrlf(s[1..]);
      assert rest[1..] == [];
      assert [s[0]] + s[1..] == s;
    }
  }

  /** A CRLF separates the pieces before it from those after it: no match can
      straddle it, because CRLF cannot overlap itself. */
  lemma {:induction false} SplitAround(a: string, b: string)
    ensures SplitCrlf(a + CRLF + b) == SplitCrlf(a) + SplitCrlf(b)
    decreases |a|
  {
    var s := a + CRLF + b;
    AroundIndexes(a, b);
    if |a| == 0 {
      assert SplitCrlf(s) == [""] + SplitCrlf(b);
      assert SplitCrlf(a) == [""];
    } else if |a| == 1 {
      var rest := SplitCrlf(s[1..]);
      assert SplitCrlf(s) == [[s[0]] + rest[0]] + rest[1..];
      SplitAround([], b);
      assert [] + CRLF + b == s[1..];
      assert rest == [""] + SplitCrlf(b);
      assert a == [a[0]];
      assert SplitCrlf(a) == [[a[0]]];
      assert rest[1..] == SplitCrlf(b);
      assert [s[0]] + rest[0] == [a[0]];
    } else if a[0] == '\r' && a[1] == '\n' {
      SplitAround(a[2..], b);
      assert SplitCrlf(s) == [""] + (SplitCrlf(a[2..]) + SplitCrlf(b));
      assert SplitCrlf(a) == [""] + SplitCrlf(a[2..]);
      ConsAssoc("", SplitCrlf(a[2..]), SplitCrlf(b));
    } else {
      SplitAround(a[1..], b);
      var head := SplitCrlf(a[1..]);
      var rest := SplitCrlf(s[1..]);
      assert rest == head + SplitCrlf(b);
      assert SplitCrlf(s) == [[s[0]] + rest[0]] + rest[1..];
      assert SplitCrlf(a) == [[a[0]] + head[0]] + head[1..];
      ExtendFirst([a[0]] + head[0], head, SplitCrlf(b));
    }
  }

  /** Where the parts of `a + CRLF + b` sit. */
  lemma AroundIndexes(a: string, b: string)
    ensures var s := a + CRLF + b;
            && |s| == |a| + 2 + |b|
            && (|a| == 0 ==> s[0] == '\r' && s[1] == '\n' && s[2..] == b)
            && (|a| >= 1 ==> s[0] == a[0] && s[1..] == a[1..] + CRLF + b)
            && (|a| == 1 ==> s[1] == '\r')
            && (|a| >= 2 ==> s[1] == a[1] && s[2..] == a[2..] + CRLF + b)
  {
    var s := a + CRLF + b;
    if |a| >= 1 {
      assert s[1..] == a[1..] + CRLF + b;
    }
    if |a| >= 2 {
      assert s[2..] == a[2..] + CRLF + b;
    }
  }

  lemma ConsAssoc(x: string, ys: seq<string>, zs: seq<string>)
    ensures [x] + (ys + zs) == ([x] + ys) + zs
  {
  }

  /** Replacing the first piece of a split and then appending more pieces. */
  lemma ExtendFirst(first: string, head: seq<string>, more: seq<string>)
    requires |head| >= 1
    ensures [first] + (head + more)[1..] == ([first] + head[1..]) + more
  {
    assert (head + more)[1..] == head[1..] + more;
  }

  /** Joining the pieces and splitting again gives the pieces back, provided
      no piece contains CRLF itself. */
  lemma {:induction false} SplitJoin(pieces: seq<string>)
    requires |pieces| >= 1
    requires forall k :: 0 <= k < |pieces| ==> NoCrlf(pieces[k])
    ensures SplitCrlf(JoinCrlf(pieces)) == pieces
  {
    SplitNoCrlf(pieces[0]);
    if |pieces| >= 2 {
      SplitJoin(pieces[1..]);
      SplitAround(pieces[0], JoinCrlf(pieces[1..]));
      assert [pieces[0]] + pieces[1..] == pieces;
    }
  }

  /** Adding a CRLF-free piece keeps every piece CRLF-free. */
  lemma AllNoCrlfSnoc(pieces: seq<string>, last: string)
    requires forall k :: 0 <= k < |pieces| ==> NoCrlf(pieces[k])
    requires NoCrlf(last)
    ensures forall k :: 0 <= k < |pieces + [last]| ==> NoCrlf((pieces + [last])[k])
  {
    forall k | 0 <= k < |pieces + [last]| ensures NoCrlf((pieces + [last])[k]) {
      if k < |pieces| {
        assert (pieces + [last])[k] == pieces[k];
      }
    }
  }

  /** Adding a CRLF-free first piece keeps every piece CRLF-free. */
  lemma AllNoCrlfCons(first: string, pieces: seq<string>)
    requires NoCrlf(first)
    requires forall k :: 0 <= k < |pieces| ==> NoCrlf(pieces[k])
    ensures forall k :: 0 <= k < |[first] + pieces| ==> NoCrlf(([first] + pieces)[k])
  {
    forall k | 0 <= k < |[first] + pieces| ensures NoCrlf(([first] + pieces)[k]) {
      if k > 0 {
        assert ([first] + pieces)[k] == pieces[k - 1];
      }
    }
  }

  /** Joining with one more piece appends a CRLF and that piece. */
  lemma {:induction false} JoinSnoc(pieces: seq<string>, last: string)
    requires |pieces| >= 1
    ensures JoinCrlf(pieces + [last]) == JoinCrlf(pieces) + CRLF + last
  {
    if |pieces| >= 2 {
      assert (pieces + [last])[1..] == pieces[1..] + [last];
      JoinSnoc(pieces[1..], last);
      AppendAssoc(pieces[0] + CRLF, JoinCrlf(pieces[1..]), CRLF, last);
    }
  }

  /** The last piece of a split is empty exactly when the string is empty or
      ends in CRLF. */
  lemma {:induction false} LastPieceEmpty(s: string)
    ensures var pieces := SplitCrlf(s);
            pieces[|pieces| - 1] == "" <==> s == "" || EndsWithCrlf(s)
  {
    var pieces := SplitCrlf(s);
    var last := pieces[|pieces| - 1];
    if EndsWithCrlf(s) {
      var a := s[..|s| - 2];
      TrailingCrlf(s);
      SplitAround(a, "");
      assert SplitCrlf("") == [""];
    } else if s != "" {
      JoinSplit(s);
      if |pieces| >= 2 {
        var init := pieces[..|pieces| - 1];
        assert pieces == init + [last];
        JoinSnoc(init, last);
        CrlfEnding(JoinCrlf(init));
      }
    }
  }

  lemma TrailingCrlf(s: string)
    requires EndsWithCrlf(s)
    ensures s == s[..|s| - 2] + CRLF + ""
  {
  }

  lemma CrlfEnding(x: string)
    ensures EndsWithCrlf(x + CRLF) && x + CRLF + "" == x + CRLF
  {
  }

  // ---------------------------------------------------------------------------
  // split_whitespace and join(" ")
  // ---------------------------------------------------------------------------

  /** `char::is_whitespace`: the Unicode White_Space property. */
  predicate IsWhitespace(c: char) {
    || ('\t' <= c <= '\r')
    || c == ' '
    || c == '\U{85}'
    || c == '\U{A0}'
    || c == '\U{1680}'
    || ('\U{2000}' <= c <= '\U{200A}')
    || c == '\U{2028}'
    || c == '\U{2029}'
    || c == '\U{202F}'
    || c == '\U{205F}'
    || c == '\U{3000}'
  }

  /** A token as `split_whitespace` yields it: non-empty, no whitespace. */
  predicate IsWord(w: string) {
    |w| > 0 && forall i :: 0 <= i < |w| ==> !IsWhitespace(w[i])
  }

  /** The longest whitespace-free prefix of `s`. */
  function LeadingWord(s: string): (w: string)
    ensures w <= s
    ensures forall i :: 0 <= i < |w| ==> !IsWhitespace(w[i])
    ensures |s| > 0 && !IsWhitespace(s[0]) ==> |w| >= 1
  {
    if |s| == 0 || IsWhitespace(s[0]) then [] else [s[0]] + LeadingWord(s[1..])
  }

  /** `s.split_whitespace().collect()`: the maximal runs of non-whitespace. */
  function Words(s: string): (words: seq<string>)
    ensures forall k :: 0 <= k < |words| ==> IsWord(words[k])
    decreases |s|
  {
    if |s| == 0 then []
    else if IsWhitespace(s[0]) then Words(s[1..])
    else
      var w := LeadingWord(s);
      [w] + Words(s[|w|..])
  }

  /** `words.join(" ")`. */
  function JoinSpaces(words: seq<string>): string {
    if |words| == 0 then ""
    else if |words| == 1 then words[0]
    else words[0] + " " + JoinSpaces(words[1..])
  }

  lemma {:induction false} LeadingWordOf(w: string, tail: string)
    requires forall i :: 0 <= i < |w| ==> !IsWhitespace(w[i])
    requires tail == [] || IsWhitespace(tail[0])
    ensures LeadingWord(w + tail) == w
  {
    if w != [] {
      assert (w + tail)[1..] == w[1..] + tail;
      LeadingWordOf(w[1..], tail);
    }
  }

  /** Tokenising words joined by single spaces gives the words back. */
  lemma {:induction false} WordsJoinSpaces(words: seq<string>)
    requires forall k :: 0 <= k < |words| ==> IsWord(words[k])
    ensures Words(JoinSpaces(words)) == words
  {
    if |words| == 1 {
      var w := words[0];
      LeadingWordOf(w, []);
      assert w + [] == w;
      assert w[|w|..] == [];
    } else if |words| >= 2 {
      var w, rest := words[0], JoinSpaces(words[1..]);
      var s := w + " " + rest;
      LeadingWordOf(w, " " + rest);
      assert s == w + (" " + rest);
      assert s[|w|..] == " " + rest;
      assert (" " + rest)[1..] == rest;
      WordsJoinSpaces(words[1..]);
      assert [w] + words[1..] == words;
    }
  }

  /** A line has no tokens exactly when it is all whitespace. */
  lemma {:induction false} WordsEmpty(s: string)
    ensures Words(s) == [] <==> forall i :: 0 <= i < |s| ==> IsWhitespace(s[i])
    decreases |s|
  {
    if |s| > 0 && IsWhitespace(s[0]) {
      WordsEmpty(s[1..]);
      assert forall i :: 1 <= i < |s| ==> s[i] == s[1..][i - 1];
    }
  }

  /** Whitespace in front of a line adds no token. */
  lemma {:induction false} WordsSkipWhitespace(ws: string, b: string)
    requires forall i :: 0 <= i < |ws| ==> IsWhitespace(ws[i])
    ensures Words(ws + b) == Words(b)
    decreases |ws|
  {
    if ws == [] {
      assert ws + b == b;
    } else {
      assert (ws + b)[1..] == ws[1..] + b;
      WordsSkipWhitespace(ws[1..], b);
    }
  }

  /** A token ends at the first whitespace after it. */
  lemma {:induction false} LeadingWordBeforeWhitespace(a: string, t: string)
    requires |t| >= 1 && IsWhitespace(t[0])
    ensures LeadingWord(a + t) == LeadingWord(a)
    decreases |a|
  {
    if a == [] {
      assert a + t == t;
    } else if !IsWhitespace(a[0]) {
      assert (a + t)[1..] == a[1..] + t;
      LeadingWordBeforeWhitespace(a[1..], t);
    }
  }

  /** A run of whitespace separates the tokens before it from those after
      it, however long the run and whichever whitespace characters it holds:
      with WordsSkipWhitespace and WordsJoinSpaces this fixes the tokens of
      every line. */
  lemma {:induction false} WordsAround(a: string, ws: string, b: string)
    requires |ws| >= 1 && forall i :: 0 <= i < |ws| ==> IsWhitespace(ws[i])
    ensures Words(a + ws + b) == Words(a) + Words(b)
    decreases |a|
  {
    var s := a + ws + b;
    if a == [] {
      assert s == ws + b;
      WordsSkipWhitespace(ws, b);
    } else if IsWhitespace(a[0]) {
      assert s[1..] == a[1..] + ws + b;
      WordsAround(a[1..], ws, b);
    } else {
      var w := LeadingWord(a);
      var t := ws + b;
      assert s == a + t;
      LeadingWordBeforeWhitespace(a, t);
      assert s[|w|..] == a[|w|..] + ws + b;
      WordsAround(a[|w|..], ws, b);
      assert [w] + (Words(a[|w|..]) + Words(b)) == ([w] + Words(a[|w|..])) + Words(b);
    }
  }

  /** Words joined by spaces contain no carriage return, so no CRLF. */
  lemma {:induction false} JoinSpacesNoCr(words: seq<string>)
    requires forall k :: 0 <= k < |words| ==> IsWord(words[k])
    ensures forall i :: 0 <= i < |JoinSpaces(words)| ==> JoinSpaces(words)[i] != '\r'
    ensures NoCrlf(JoinSpaces(words))
  {
    if |words| >= 2 {
      JoinSpacesNoCr(words[1..]);
      var w, rest := words[0], JoinSpaces(words[1..]);
      assert JoinSpaces(words) == w + " " + rest;
      forall i | 0 <= i < |JoinSpaces(words)|
        ensures JoinSpaces(words)[i] != '\r'
      {
        if i < |w| {
          assert JoinSpaces(words)[i] == w[i];
        } else if i > |w| {
          assert JoinSpaces(words)[i] == rest[i - |w| - 1];
        }
      }
    }
  }
}
