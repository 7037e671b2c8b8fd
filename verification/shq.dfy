/** shq.py: quoting a string so that a POSIX shell reads it back as one literal word.

    The partner of both quoting functions is `Unquote`, a model of how the shell reads a word
    (section 2.2 of the POSIX Shell Command Language): outside quotes a backslash takes the
    next character literally (a backslash before a newline is a line continuation and
    vanishes), a single quote opens a run in which every character up to the next single quote
    is literal, and any other shell-special character that is left unquoted would be
    interpreted (word splitting, globbing, expansion, an operator), so the word is refused. */
module ShellQuote {
  import opened Wrappers

  /** `shell_special_chars`. */
  const Specials: set<char> := {
    '[', ']', '{', '}', '(', ')', '!', '*', '?', '|', '&', ';', '=', ' ', '\t', '\n',
    '\'', '"', '\\', '#', '`', '$', '<', '>', '~', '^'
  }

  /** `shell_keywords`, the empty string included. */
  const Keywords: set<string> := {
    "do", "done", "while", "for", "if", "elif", "else", "then", "fi", "until", "select",
    "case", "esac", "function", "time", "", "coproc", "in"
  }

  predicate Plain(s: string) {
    forall k :: 0 <= k < |s| ==> s[k] !in Specials
  }

  // ---------------------------------------------------------------------------------------
  // How the shell reads a word
  // ---------------------------------------------------------------------------------------

  /** The reader's state: the literal text so far, whether a single-quoted run is open,
      whether the previous character was an unquoted backslash, and whether the word is
      still a plain literal. */
  datatype Reader = Reader(text: string, quoting: bool, escaped: bool, ok: bool)

  const Start := Reader([], false, false, true)

  /** The shell reading one more character. */
  function Step(st: Reader, c: char): (r: Reader)
    ensures !st.ok ==> r == st
  {
    if !st.ok then st
    else if st.escaped then
      if c == '\n' then st.(escaped := false) else st.(text := st.text + [c], escaped := false)
    else if st.quoting then
      if c == '\'' then st.(quoting := false) else st.(text := st.text + [c])
    else if c == '\'' then st.(quoting := true)
    else if c == '\\' then st.(escaped := true)
    else if c in Specials then st.(ok := false)
    else st.(text := st.text + [c])
  }

  /** The shell reading a sequence of characters, left to right. */
  function ScanFrom(st: Reader, t: string): Reader
    decreases |t|
  {
    if t == [] then st else ScanFrom(Step(st, t[0]), t[1..])
  }

  /** The literal word the shell reads from `t`, or None when `t` is not one literal word
      (an unquoted special character, an open quote or a dangling backslash). */
  function Unquote(t: string): (r: Option<string>)
    ensures r.Some? <==> ScanFrom(Start, t).ok && !ScanFrom(Start, t).quoting &&
                         !ScanFrom(Start, t).escaped
  {
    var st := ScanFrom(Start, t);
    if st.ok && !st.quoting && !st.escaped then Some(st.text) else None
  }

  /** Reading a concatenation reads the parts in turn. */
  lemma {:induction false} ScanAppend(st: Reader, a: string, b: string)
    ensures ScanFrom(st, a + b) == ScanFrom(ScanFrom(st, a), b)
    decreases |a|
  {
    if a == [] {
      assert a + b == b;
    } else {
      assert (a + b)[0] == a[0];
      assert (a + b)[1..] == a[1..] + b;
      ScanAppend(Step(st, a[0]), a[1..], b);
    }
  }

  /** Reading a first character is one Step. */
  lemma ScanCons(st: Reader, c: char, t: string)
    ensures ScanFrom(st, [c] + t) == ScanFrom(Step(st, c), t)
  {
    assert ([c] + t)[0] == c && ([c] + t)[1..] == t;
  }

  /** Reading one more character at the end is one more Step. */
  lemma ScanSnoc(t: string, c: char)
    ensures ScanFrom(Start, t + [c]) == Step(ScanFrom(Start, t), c)
  {
    ScanAppend(Start, t, [c]);
  }

  /** Characters that are not special, read outside quotes, are taken as they are. */
  lemma {:induction false} ScanPlain(st: Reader, w: string)
    requires st.ok && !st.quoting && !st.escaped && Plain(w)
    ensures ScanFrom(st, w) == st.(text := st.text + w)
    decreases |w|
  {
    if w != [] {
      ScanPlain(Step(st, w[0]), w[1..]);
      assert st.text + [w[0]] + w[1..] == st.text + w;
    }
  }

  // ---------------------------------------------------------------------------------------
  // shellquote_perfect
  // ---------------------------------------------------------------------------------------

  /** `s.replace("'", "'\\''")`: every single quote becomes close-quote, escaped quote,
      open-quote. */
  function EscapeQuotes(s: string): (r: string)
    decreases |s|
  {
    if s == [] then []
    else (if s[0] == '\'' then "'\\''" else [s[0]]) + EscapeQuotes(s[1..])
  }

  /** `shellquote_perfect`: the whole string in single quotes. */
  function QuotePerfect(s: string): (r: string)
    ensures |r| >= 2 && r[0] == '\'' && r[|r| - 1] == '\''
  {
    "'" + EscapeQuotes(s) + "'"
  }

  /** The number of single quotes in a string. */
  function QuoteCount(s: string): nat
    decreases |s|
  {
    if s == [] then 0 else (if s[0] == '\'' then 1 else 0) + QuoteCount(s[1..])
  }

  lemma {:induction false} EscapeQuotesLength(s: string)
    ensures |EscapeQuotes(s)| == |s| + 3 * QuoteCount(s)
    decreases |s|
  {
    if s != [] {
      EscapeQuotesLength(s[1..]);
    }
  }

  /** The perfect quoting adds two quotes plus three characters per quote of the input. */
  lemma QuotePerfectLength(s: string)
    ensures |QuotePerfect(s)| == |s| + 2 + 3 * QuoteCount(s)
  {
    EscapeQuotesLength(s);
  }

  /** Inside an open quote, the escaped text reads back as the original text and leaves the
      quote open. */
  lemma {:induction false} ScanEscaped(st: Reader, s: string)
    requires st.ok && st.quoting && !st.escaped
    ensures ScanFrom(st, EscapeQuotes(s)) == st.(text := st.text + s)
    decreases |s|
  {
    if s != [] {
      var head := if s[0] == '\'' then "'\\''" else [s[0]];
      ScanAppend(st, head, EscapeQuotes(s[1..]));
      var mid := st.(text := st.text + [s[0]]);
      if s[0] == '\'' {
        assert head == ['\''] + (['\\'] + (['\''] + (['\''] + [])));
        ScanCons(st, '\'', ['\\'] + (['\''] + (['\''] + [])));
        var s1 := Step(st, '\'');
        ScanCons(s1, '\\', ['\''] + (['\''] + []));
        var s2 := Step(s1, '\\');
        ScanCons(s2, '\'', ['\''] + []);
        var s3 := Step(s2, '\'');
        ScanCons(s3, '\'', []);
      } else {
        ScanCons(st, s[0], []);
        assert head == [s[0]] + [];
      }
      assert ScanFrom(st, head) == mid;
      ScanEscaped(mid, s[1..]);
      assert st.text + [s[0]] + s[1..] == st.text + s;
    }
  }

  /** The shell reads the perfect quoting of any string back as exactly that string. */
  lemma QuotePerfectRoundTrip(s: string)
    ensures Unquote(QuotePerfect(s)) == Some(s)
  {
    var open := Step(Start, '\'');
    ScanCons(Start, '\'', EscapeQuotes(s));
    ScanEscaped(open, s);
    assert "'" + EscapeQuotes(s) == ['\''] + EscapeQuotes(s);
    assert open.text + s == s;
    ScanSnoc("'" + EscapeQuotes(s), '\'');
    assert QuotePerfect(s) == ("'" + EscapeQuotes(s)) + ['\''];
  }

  // ---------------------------------------------------------------------------------------
  // shellquote_optimal
  // ---------------------------------------------------------------------------------------

  /** `t` is `s` with some single quotes and backslashes inserted, and nothing else changed:
      every character of `s` is emitted, in order. */
  predicate Inserted(t: string, s: string)
    decreases |t|
  {
    if t == [] then s == []
    else (s != [] && t[|t| - 1] == s[|s| - 1] && Inserted(t[..|t| - 1], s[..|s| - 1])) ||
         ((t[|t| - 1] == '\'' || t[|t| - 1] == '\\') && Inserted(t[..|t| - 1], s))
  }

  lemma InsertedKeep(t: string, s: string, c: char)
    requires Inserted(t, s)
    ensures Inserted(t + [c], s + [c])
  {
    assert (t + [c])[..|t|] == t && (s + [c])[..|s|] == s;
  }

  lemma InsertedMark(t: string, s: string, c: char)
    requires Inserted(t, s) && (c == '\'' || c == '\\')
    ensures Inserted(t + [c], s)
  {
    assert (t + [c])[..|t|] == t;
  }

  predicate Lowercase(w: string) {
    forall k :: 0 <= k < |w| ==> 'a' <= w[k] <= 'z'
  }

  /** Every keyword is a lower-case word. */
  lemma KeywordsLowercase(w: string)
    requires w in Keywords
    ensures Lowercase(w)
  {
  }

  /** No lower-case letter is special. */
  lemma LowercasePlain(w: string)
    requires Lowercase(w)
    ensures Plain(w)
  {
  }

  /** The lookahead of `shellquote_optimal`: scanning from `from`, a special character other
      than a single quote is met before any single quote. */
  method SpecialAhead(s: string, from: nat) returns (found: bool)
    requires from <= |s|
    ensures found <==> exists j :: from <= j < |s| && s[j] in Specials && s[j] != '\'' &&
                                   forall k :: from <= k < j ==> s[k] != '\''
  {
    for k := from to |s|
      invariant forall m :: from <= m < k ==> s[m] !in Specials
    {
      if s[k] == '\'' {
        return false;
      } else if s[k] in Specials {
        return true;
      }
    }
    return false;
  }

  /** `shellquote_optimal`: the empty string becomes `''`, a keyword gets a leading
      backslash, and otherwise single quotes are escaped with a backslash while a special
      character is quoted when it is a newline or another special character follows it
      before the next single quote, and backslash-escaped otherwise. The shell reads the
      result back as the input; only quotes and backslashes are inserted; a plain string that
      is not a keyword comes back unchanged. */
  method QuoteOptimal(s: string) returns (out: string)
    ensures s == [] ==> out == "''"
    ensures s != [] && s in Keywords ==> out == "\\" + s
    ensures Unquote(out) == Some(s)
    ensures Inserted(out, s)
    ensures s !in Keywords && Plain(s) ==> out == s
  {
    if s == [] {
      out := "''";
      assert Inserted("'", []);
      return;
    }
    if s in Keywords {
      out := "\\" + s;
      KeywordsLowercase(s);
      BackslashedWord(s);
      return;
    }
    var quoting := false;
    out := "";
    for ind := 0 to |s|
      invariant ScanFrom(Start, out) == Reader(s[..ind], quoting, false, true)
      invariant Inserted(out, s[..ind])
      invariant Plain(s[..ind]) ==> out == s[..ind] && !quoting
    {
      var c := s[ind];
      PlainPrefix(s, ind);
      if c == '\'' {
        CloseAndEscapeQuote(out, s[..ind], quoting);
        if quoting {
          quoting := false;
          out := out + "'";
        }
        out := out + "\\";
      } else if c in Specials && !quoting {
        var found := c == '\n';
        if !found {
          found := SpecialAhead(s, ind + 1);
        }
        if found {
          OpenQuote(out, s[..ind], c);
          quoting := true;
          out := out + "'";
        } else {
          EscapeSpecial(out, s[..ind], c);
          out := out + "\\";
        }
      } else {
        Literal(out, s[..ind], quoting, c);
      }
      out := out + [c];
    }
    assert s[..|s|] == s;
    if quoting {
      Emit(out, "'", s);
      out := out + "'";
    }
  }

  /** Emitting an inserted quote or backslash keeps `out` an insertion into `s`. */
  lemma Emit(out: string, mark: string, s: string)
    requires Inserted(out, s) && (mark == "'" || mark == "\\")
    ensures Inserted(out + mark, s)
    ensures ScanFrom(Start, out + mark) == Step(ScanFrom(Start, out), mark[0])
  {
    InsertedMark(out, s, mark[0]);
    assert mark == [mark[0]];
    ScanSnoc(out, mark[0]);
  }

  /** A lower-case word, such as a keyword, behind a backslash reads back as the word and is
      an insertion into it. */
  lemma BackslashedWord(s: string)
    requires Lowercase(s) && s != []
    ensures Unquote("\\" + s) == Some(s) && Inserted("\\" + s, s)
  {
    LowercasePlain(s);
    ScanAppend(Start, "\\" + [s[0]], s[1..]);
    assert "\\" + [s[0]] + s[1..] == "\\" + s;
    assert "\\" + [s[0]] == ['\\'] + ([s[0]] + []);
    ScanCons(Start, '\\', [s[0]] + []);
    ScanCons(Step(Start, '\\'), s[0], []);
    assert 'a' <= s[0] <= 'z';
    assert ScanFrom(Start, "\\" + [s[0]]) == Reader([s[0]], false, false, true);
    assert Plain(s[1..]) by {
      forall k | 0 <= k < |s[1..]| ensures s[1..][k] !in Specials {
        assert s[1..][k] == s[k + 1];
      }
    }
    ScanPlain(Reader([s[0]], false, false, true), s[1..]);
    assert [s[0]] + s[1..] == s;
    InsertedMarkFront(s);
  }

  /** One more character of a string: its prefix grows by it, and the longer prefix is plain
      only when the shorter one is and the character is not special. */
  lemma PlainPrefix(s: string, i: nat)
    requires i < |s|
    ensures s[..i + 1] == s[..i] + [s[i]]
    ensures Plain(s[..i + 1]) <==> Plain(s[..i]) && s[i] !in Specials
  {
    assert s[..i + 1] == s[..i] + [s[i]];
    if Plain(s[..i + 1]) {
      assert s[..i + 1][i] == s[i];
      forall k | 0 <= k < i ensures s[..i][k] !in Specials {
        assert s[..i][k] == s[..i + 1][k];
      }
    }
  }

  /** An input quote: an open quote is closed, then the quote is emitted backslash-escaped. */
  lemma CloseAndEscapeQuote(out: string, p: string, q: bool)
    requires ScanFrom(Start, out) == Reader(p, q, false, true) && Inserted(out, p)
    ensures var t := (if q then out + "'" else out) + "\\" + "'";
            ScanFrom(Start, t) == Reader(p + "'", false, false, true) && Inserted(t, p + "'")
  {
    var u := if q then out + "'" else out;
    if q {
      Emit(out, "'", p);
    }
    Emit(u, "\\", p);
    ScanSnoc(u + "\\", '\'');
    InsertedKeep(u + "\\", p, '\'');
  }

  /** A special character that starts a quoted run. */
  lemma OpenQuote(out: string, p: string, c: char)
    requires ScanFrom(Start, out) == Reader(p, false, false, true) && Inserted(out, p)
    requires c != '\''
    ensures ScanFrom(Start, out + "'" + [c]) == Reader(p + [c], true, false, true)
    ensures Inserted(out + "'" + [c], p + [c])
  {
    Emit(out, "'", p);
    ScanSnoc(out + "'", c);
    InsertedKeep(out + "'", p, c);
  }

  /** A special character, other than a newline, escaped with a backslash. */
  lemma EscapeSpecial(out: string, p: string, c: char)
    requires ScanFrom(Start, out) == Reader(p, false, false, true) && Inserted(out, p)
    requires c != '\n'
    ensures ScanFrom(Start, out + "\\" + [c]) == Reader(p + [c], false, false, true)
    ensures Inserted(out + "\\" + [c], p + [c])
  {
    Emit(out, "\\", p);
    ScanSnoc(out + "\\", c);
    InsertedKeep(out + "\\", p, c);
  }

  /** A character emitted as it is: inside a quoted run, or not special at all. */
  lemma Literal(out: string, p: string, q: bool, c: char)
    requires ScanFrom(Start, out) == Reader(p, q, false, true) && Inserted(out, p)
    requires c != '\'' && (q || c !in Specials)
    ensures ScanFrom(Start, out + [c]) == Reader(p + [c], q, false, true)
    ensures Inserted(out + [c], p + [c])
  {
    ScanSnoc(out, c);
    InsertedKeep(out, p, c);
  }

  /** A leading backslash in front of a string is an insertion into it. */
  lemma {:induction false} InsertedMarkFront(s: string)
    ensures Inserted("\\" + s, s)
    decreases |s|
  {
    if s == [] {
      assert Inserted([], []);
    } else {
      var t := "\\" + s;
      assert t[..|t| - 1] == "\\" + s[..|s| - 1];
      InsertedMarkFront(s[..|s| - 1]);
    }
  }
}
