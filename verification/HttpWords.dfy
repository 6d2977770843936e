/** The words of a line that is put together from pieces, and which request lines the parser accepts. */
module HttpWords {
  import opened Bytes
  import opened HttpText
  import opened HttpParsing

  predicate EndsInSpace(s: Text) { s != [] && IsSpace(s[|s| - 1]) }

  predicate StartsWithSpace(s: Text) { s != [] && IsSpace(s[0]) }

  lemma AnySpaceFirst(c: Byte, s: Text)
    requires IsSpace(c)
    ensures Words([c] + s) == Words(s)
  {
    assert ([c] + s)[1..] == s;
    assert TrimStart([c] + s) == TrimStart(s);
  }

  lemma {:induction false} WordSplit(s: Text)
    requires s != [] && !IsSpace(s[0])
    ensures var w, rest := Word(s), s[|Word(s)|..];
      IsWord(w) && s == w + rest && (rest == [] || IsSpace(rest[0])) && Words(s) == [w] + Words(rest)
  {
    WordEnds(s);
    FirstOfWords(s);
  }

  lemma FirstOfWords(s: Text)
    requires s != [] && !IsSpace(s[0])
    ensures Words(s) == [Word(s)] + Words(s[|Word(s)|..])
  {
    hide Word;
    assert TrimStart(s) == s;
  }

  lemma {:induction false} WordEnds(s: Text)
    requires s != [] && !IsSpace(s[0])
    ensures var w, rest := Word(s), s[|Word(s)|..];
      IsWord(w) && s == w + rest && (rest == [] || IsSpace(rest[0]))
  {
    hide IsSpace;
    var t := s[1..];
    assert s == [s[0]] + t;
    if t == [] || IsSpace(t[0]) {
      assert Word(t) == [];
      assert Word(s) == [s[0]];
    } else {
      WordEnds(t);
      var w, rest := Word(t), t[|Word(t)|..];
      assert Word(s) == [s[0]] + w;
      Assoc([s[0]], w, rest);
      assert s[|w| + 1..] == rest;
    }
  }

  /** Pieces with white space between them, on either side of the seam, keep their words. */
  lemma {:induction false} Separated(a: Text, s: Text)
    requires a == [] || s == [] || EndsInSpace(a) || StartsWithSpace(s)
    ensures Words(a + s) == Words(a) + Words(s)
    decreases |a|
  {
    hide Words, Word;
    if a == [] || s == [] {
      NoWords();
      Units(a);
      Units(s);
      Units(Words(a));
      Units(Words(s));
    } else if IsSpace(a[0]) {
      assert a == [a[0]] + a[1..];
      Assoc([a[0]], a[1..], s);
      AnySpaceFirst(a[0], a[1..] + s);
      AnySpaceFirst(a[0], a[1..]);
      Separated(a[1..], s);
    } else {
      WordSplit(a);
      var w, rest := Word(a), a[|Word(a)|..];
      assert rest == [] ==> a[|a| - 1] == w[|w| - 1] && w[|w| - 1] in w;
      Assoc(w, rest, s);
      WordsCons(w, rest + s);
      Separated(rest, s);
      Assoc([w], Words(rest), Words(s));
    }
  }

  lemma NoWords()
    ensures Words([]) == []
  {
  }

  /** Without white space at the seam the last word of one and the first word of the other become one. */
  lemma {:induction false} Merged(a: Text, s: Text)
    requires a != [] && s != [] && !EndsInSpace(a) && !StartsWithSpace(s)
    ensures Words(a) != [] && Words(s) != []
    ensures var v, w := Words(a), Words(s);
      Words(a + s) == v[..|v| - 1] + ([v[|v| - 1] + w[0]] + w[1..])
    decreases |a|
  {
    hide Words, Word;
    if IsSpace(a[0]) {
      assert a == [a[0]] + a[1..];
      Assoc([a[0]], a[1..], s);
      AnySpaceFirst(a[0], a[1..] + s);
      AnySpaceFirst(a[0], a[1..]);
      Merged(a[1..], s);
    } else {
      WordSplit(a);
      WordSplit(s);
      var w, rest := Word(a), a[|Word(a)|..];
      Assoc(w, rest, s);
      if rest == [] {
        NoWords();
        Units(w);
        MergedWord(w, s);
      } else {
        Merged(rest, s);
        WordsCons(w, rest + s);
        var v := Words(rest);
        assert ([w] + v)[..|v|] == [w] + v[..|v| - 1];
        Assoc([w], v[..|v| - 1], [v[|v| - 1] + Words(s)[0]] + Words(s)[1..]);
      }
    }
  }

  lemma MergedWord(w: Text, s: Text)
    requires IsWord(w) && s != [] && !IsSpace(s[0])
    ensures Words(s) != [] && Words(w + s) == [w + Words(s)[0]] + Words(s)[1..]
  {
    hide Words, Word;
    WordSplit(s);
    var x, rest := Word(s), s[|Word(s)|..];
    Assoc(w, x, rest);
    assert forall c | c in w + x :: c in w || c in x;
    WordsCons(w + x, rest);
    assert ([x] + Words(rest))[1..] == Words(rest);
  }

  lemma {:induction false} BlankHasNoWords(s: Text)
    ensures Words(s) == [] <==> IsBlank(s)
    decreases |s|
  {
    hide Words, Word;
    if s == [] {
      NoWords();
    } else {
      assert s == [s[0]] + s[1..];
      if IsSpace(s[0]) {
        AnySpaceFirst(s[0], s[1..]);
        BlankHasNoWords(s[1..]);
        assert forall c | c in s :: c == s[0] || c in s[1..];
        assert forall c | c in s[1..] :: c in s;
      } else {
        WordSplit(s);
        assert s[0] in s;
      }
    }
  }

  // ---- Request lines ----

  predicate GoodVersion(version: Text) { |version| >= 5 ==> version[..5] == "HTTP/" }

  lemma StripKeepsWords(line: Text)
    ensures Words(StripCr(line)) == Words(line)
  {
    hide Words;
    if line != [] && line[|line| - 1] == CR {
      var front := line[..|line| - 1];
      assert line == front + [CR];
      Separated(front, [CR]);
      BlankHasNoWords([CR]);
      Units(Words(front));
    }
  }

  /** The request line is its first three words. */
  lemma LineByWords(line: Text)
    ensures var w := Words(line); var (ok, req) := RequestLine(NEW_REQUEST, line);
      && (ok <==> |w| >= 3 && GoodVersion(w[2]))
      && (ok ==> req == NEW_REQUEST.(method_ := w[0], path := w[1], version := w[2]))
  {
    hide Words, StripCr;
    StripKeepsWords(line);
  }

  /** A line the parser goes on from: three words, anything between and behind them that is set off by white space,
      and if the third has five characters or more it begins with HTTP/. */
  ghost predicate IsFirstLine(line: Text, m: Text, t: Text, v: Text) {
    exists lead: Text, gap: Text, space: Text, tail: Text :: SetOff(line, m, t, v, lead, gap, space, tail)
  }

  ghost predicate SetOff(line: Text, m: Text, t: Text, v: Text, lead: Text, gap: Text, space: Text, tail: Text) {
    && line == lead + (m + (gap + (t + (space + (v + tail)))))
    && IsBlank(lead) && IsBlank(gap) && gap != [] && IsBlank(space) && space != []
    && IsWord(m) && IsWord(t) && IsWord(v) && (tail == [] || IsSpace(tail[0]))
  }

  /** The first word of a text that has one. */
  lemma {:induction false} FirstWord(s: Text) returns (lead: Text, w: Text, rest: Text)
    requires Words(s) != []
    ensures s == lead + (w + rest) && IsBlank(lead) && IsWord(w) && (rest == [] || IsSpace(rest[0]))
    ensures Words(s) == [w] + Words(rest) && (s != [] && IsSpace(s[0]) ==> lead != [])
    decreases |s|
  {
    hide Words, Word;
    NoWords();
    if IsSpace(s[0]) {
      assert s == [s[0]] + s[1..];
      AnySpaceFirst(s[0], s[1..]);
      var x;
      x, w, rest := FirstWord(s[1..]);
      lead := [s[0]] + x;
      Assoc([s[0]], x, w + rest);
    } else {
      WordSplit(s);
      lead, w, rest := [], Word(s), s[|Word(s)|..];
      Units(w + rest);
    }
  }

  lemma BlankThenWord(lead: Text, w: Text, rest: Text)
    requires IsBlank(lead) && IsWord(w) && (rest == [] || IsSpace(rest[0]))
    ensures Words(lead + (w + rest)) == [w] + Words(rest)
  {
    hide Words;
    BlankHasNoWords(lead);
    WordsCons(w, rest);
    assert lead != [] ==> lead[|lead| - 1] in lead;
    Separated(lead, w + rest);
    Units(Words(w + rest));
  }

  lemma FirstLineOfWords(line: Text)
    requires |Words(line)| >= 3
    ensures IsFirstLine(line, Words(line)[0], Words(line)[1], Words(line)[2])
  {
    hide Words;
    NoWords();
    var lead, m, r1 := FirstWord(line);
    var gap, t, r2 := FirstWord(r1);
    var space, v, tail := FirstWord(r2);
    assert SetOff(line, m, t, v, lead, gap, space, tail);
  }

  lemma WordsOfFirstLine(line: Text, m: Text, t: Text, v: Text)
    requires IsFirstLine(line, m, t, v)
    ensures |Words(line)| >= 3 && Words(line)[0] == m && Words(line)[1] == t && Words(line)[2] == v
  {
    var lead, gap, space, tail :| SetOff(line, m, t, v, lead, gap, space, tail);
    WordsOfParts(line, m, t, v, lead, gap, space, tail);
  }

  lemma WordsOfParts(line: Text, m: Text, t: Text, v: Text, lead: Text, gap: Text, space: Text, tail: Text)
    requires SetOff(line, m, t, v, lead, gap, space, tail)
    ensures |Words(line)| >= 3 && Words(line)[0] == m && Words(line)[1] == t && Words(line)[2] == v
  {
    hide Words;
    var back := space + (v + tail);
    assert gap[0] in gap && space[0] in space;
    BlankThenWord(space, v, tail);
    BlankThenWord(gap, t, back);
    BlankThenWord(lead, m, gap + (t + back));
  }

  /** Which request lines are accepted, and what is read from them: method, target and version, if and only if the
      line has that form. */
  lemma RequestLineExact(line: Text)
    ensures var (ok, req) := RequestLine(NEW_REQUEST, line);
      && (ok <==> exists m: Text, t: Text, v: Text :: IsFirstLine(line, m, t, v) && GoodVersion(v))
      && (forall m: Text, t: Text, v: Text | IsFirstLine(line, m, t, v) && GoodVersion(v) ::
           req == NEW_REQUEST.(method_ := m, path := t, version := v))
  {
    hide Words, RequestLine, IsFirstLine, GoodVersion;
    LineByWords(line);
    forall m: Text, t: Text, v: Text | IsFirstLine(line, m, t, v)
      ensures |Words(line)| >= 3 && Words(line)[0] == m && Words(line)[1] == t && Words(line)[2] == v
    {
      WordsOfFirstLine(line, m, t, v);
    }
    if |Words(line)| >= 3 {
      FirstLineOfWords(line);
    }
  }
}
