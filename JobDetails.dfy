/**
 * The job details screen's two pieces of logic: `formatDescription`, which
 * turns the API's HTML description into display text by a chain of global
 * regular-expression replacements and a trim, and `handleSaveToggle`.
 */
module JobDetails {
  import opened Types
  import opened Strings
  import opened SavedJobList
  import opened JobContext
  import opened PersistentJobContext

  /**
   * The regular expressions of the replacement chain. `Tag(prefix, minBody)`
   * is `prefix[^>]{minBody,}>`: the prefix, then at least `minBody`
   * characters other than '>', then '>'. `Literal(text)` is the text itself.
   */
  datatype Pattern = Tag(prefix: string, minBody: nat) | Literal(text: string)

  /** The five patterns of the chain, in order, and what the first three are replaced by. */
  const H3Open := Tag("<h3", 0)
  const H3Close := Literal("</h3>")
  const ListItem := Tag("<li", 0)
  const AnyTag := Tag("<", 1)
  const Amp := Literal("&amp;")
  const Bullet := "\n\n● "
  const LineBreak := "\n"
  const Dash := "\n  - "

  /** The index of the first '>' in `s` at or after `from`, if any. */
  function FindGt(s: string, from: nat): (r: Option<nat>)
    ensures r.Some? ==> (from <= r.value < |s| && s[r.value] == '>'
                         && forall k :: from <= k < r.value ==> s[k] != '>')
    ensures r.None? ==> forall k :: from <= k < |s| ==> s[k] != '>'
    decreases |s| - from
  {
    if from >= |s| then None
    else if s[from] == '>' then Some(from)
    else FindGt(s, from + 1)
  }

  /** The length of the match of `p` at the start of `s`, if one starts there; a match is never empty. */
  function MatchLength(p: Pattern, s: string): (r: Option<nat>)
    ensures r.Some? ==> 0 < r.value <= |s|
  {
    match p
    case Literal(text) =>
      if text != [] && text <= s then Some(|text|) else None
    case Tag(prefix, minBody) =>
      if prefix <= s then
        match FindGt(s, |prefix|)
        case Some(j) => if j - |prefix| >= minBody then Some(j + 1) else None
        case None => None
      else None
  }

  /**
   * `s.replace(p, repl)` with the global flag: a left-to-right scan that
   * replaces a match where one starts and copies the character otherwise,
   * resuming after each replaced match.
   */
  function Replace(p: Pattern, s: string, repl: string): string
    decreases |s|
  {
    if s == [] then []
    else match MatchLength(p, s)
      case Some(n) => repl + Replace(p, s[n..], repl)
      case None => [s[0]] + Replace(p, s[1..], repl)
  }

  /** No match of `p` starts anywhere in `s`. */
  predicate NoMatch(p: Pattern, s: string)
  {
    forall i :: 0 <= i < |s| ==> MatchLength(p, s[i..]).None?
  }

  /** A scan that finds nothing to replace returns its input. */
  lemma {:induction false} ReplaceNoMatch(p: Pattern, s: string, repl: string)
    requires NoMatch(p, s)
    ensures Replace(p, s, repl) == s
    decreases |s|
  {
    if s != [] {
      assert MatchLength(p, s[0..]).None? && s[0..] == s;
      assert NoMatch(p, s[1..]) by {
        forall i | 0 <= i < |s[1..]| ensures MatchLength(p, s[1..][i..]).None? {
          assert s[1..][i..] == s[i + 1..];
        }
      }
      ReplaceNoMatch(p, s[1..], repl);
      assert [s[0]] + s[1..] == s;
    }
  }

  /** Every character of the output was copied from the input or comes from the replacement. */
  lemma {:induction false} ReplaceChars(p: Pattern, s: string, repl: string, c: char)
    requires c in Replace(p, s, repl)
    ensures c in s || c in repl
    decreases |s|
  {
    match MatchLength(p, s)
    case Some(n) =>
      if c !in repl {
        ReplaceChars(p, s[n..], repl, c);
        assert s[n..] <= s[n..] && c in s[n..];
      }
    case None =>
      if c != s[0] { ReplaceChars(p, s[1..], repl, c); }
  }

  /** Text in which no match starts is copied as it is, and the scan goes on after it. */
  lemma {:induction false} ReplaceSkip(p: Pattern, u: string, v: string, repl: string)
    requires forall i :: 0 <= i < |u| ==> MatchLength(p, (u + v)[i..]).None?
    ensures Replace(p, u + v, repl) == u + Replace(p, v, repl)
    decreases |u|
  {
    if u != [] {
      assert (u + v)[0..] == u + v;
      SkipTail(p, u, v);
      ReplaceSkip(p, u[1..], v, repl);
      SkipStep(p, u, v, repl, Replace(p, v, repl));
    } else {
      assert u + v == v;
    }
  }

  /** The step of `ReplaceSkip`: the first character is copied in front of the scan of the rest. */
  lemma SkipStep(p: Pattern, u: string, v: string, repl: string, rest: string)
    requires u != [] && MatchLength(p, u + v).None?
    requires Replace(p, u[1..] + v, repl) == u[1..] + rest
    ensures Replace(p, u + v, repl) == u + rest
  {
    ReplaceCopies(p, u + v, repl);
    ConsSplit(u, v, rest);
  }

  /** Splitting off the first character of `u + v` and putting it back in front of `u[1..] + rest`. */
  lemma ConsSplit(u: string, v: string, rest: string)
    requires u != []
    ensures (u + v)[1..] == u[1..] + v
    ensures [(u + v)[0]] + (u[1..] + rest) == u + rest
  {
    assert [u[0]] + u[1..] == u;
  }

  /** Where a match starts, the scan emits the replacement and resumes behind the match. */
  lemma ReplaceJumps(p: Pattern, s: string, repl: string, n: nat)
    requires s != [] && MatchLength(p, s) == Some(n)
    ensures Replace(p, s, repl) == repl + Replace(p, s[n..], repl)
    ensures repl == [] ==> Replace(p, s, repl) == Replace(p, s[n..], repl)
  {
    assert [] + Replace(p, s[n..], repl) == Replace(p, s[n..], repl);
  }

  /** Where no match starts, the scan copies one character. */
  lemma ReplaceCopies(p: Pattern, s: string, repl: string)
    requires s != [] && MatchLength(p, s).None?
    ensures Replace(p, s, repl) == [s[0]] + Replace(p, s[1..], repl)
  {
  }

  /** Where no match starts in `u`, none starts in the tail of `u` either. */
  lemma SkipTail(p: Pattern, u: string, v: string)
    requires u != []
    requires forall i :: 0 <= i < |u| ==> MatchLength(p, (u + v)[i..]).None?
    ensures forall i :: 0 <= i < |u[1..]| ==> MatchLength(p, (u[1..] + v)[i..]).None?
  {
    forall i | 0 <= i < |u[1..]| ensures MatchLength(p, (u[1..] + v)[i..]).None? {
      assert (u[1..] + v)[i..] == (u + v)[i + 1..];
    }
  }

  /** A match where the scan stands is replaced, and the scan goes on after it. */
  lemma ReplaceMatch(p: Pattern, m: string, v: string, repl: string)
    requires MatchLength(p, m + v) == Some(|m|)
    ensures Replace(p, m + v, repl) == repl + Replace(p, v, repl)
  {
    assert (m + v)[|m|..] == v;
  }

  /** A pattern that begins with '<' matches at no position of a text without '<'. */
  lemma NoAngleSkips(p: Pattern, u: string, v: string)
    requires p.Tag? ==> p.prefix != [] && p.prefix[0] == '<'
    requires p.Literal? ==> p.text != [] && p.text[0] == '<'
    requires '<' !in u
    ensures forall i :: 0 <= i < |u| ==> MatchLength(p, (u + v)[i..]).None?
  {
    forall i | 0 <= i < |u| ensures MatchLength(p, (u + v)[i..]).None? {
      assert (u + v)[i..][0] == u[i];
    }
  }

  /** `prefix[^>]{minBody,}>` matches a prefix, a body without '>' that is long enough, and '>'. */
  lemma TagMatches(prefix: string, minBody: nat, body: string, v: string)
    requires '>' !in body && |body| >= minBody
    ensures MatchLength(Tag(prefix, minBody), prefix + body + ">" + v) == Some(|prefix + body + ">"|)
  {
    var s := prefix + body + ">" + v;
    var j := |prefix| + |body|;
    assert s[j] == '>';
    assert prefix <= s;
    forall k | |prefix| <= k < j ensures s[k] != '>' {
      assert s[k] == body[k - |prefix|];
    }
    var g := FindGt(s, |prefix|);
    assert g == Some(j);
  }

  /** A match behind text in which none starts is replaced, and the scan goes on after it. */
  lemma MatchBehindSkip(p: Pattern, u: string, m: string, v: string, repl: string)
    requires forall i :: 0 <= i < |u| ==> MatchLength(p, (u + (m + v))[i..]).None?
    requires MatchLength(p, m + v) == Some(|m|)
    ensures Replace(p, u + m + v, repl) == u + repl + Replace(p, v, repl)
  {
    ReplaceMatch(p, m, v, repl);
    ReplaceSkip(p, u, m + v, repl);
    assert u + m + v == u + (m + v);
  }

  /**
   * No match starts in `u` when `u` holds no occurrence of the pattern's
   * opening text `t` and the match `m` behind it begins with `t`: `t` never
   * begins again inside itself, so no occurrence straddles `u` and `m`.
   */
  lemma StartSkips(p: Pattern, t: string, u: string, m: string, v: string)
    requires (p.Tag? && p.prefix == t) || (p.Literal? && p.text == t)
    requires t != [] && t <= m
    requires forall k :: 0 < k < |t| ==> t[k] != t[0]
    requires !Includes(u, t)
    ensures forall i :: 0 <= i < |u| ==> MatchLength(p, (u + (m + v))[i..]).None?
  {
    forall i | 0 <= i < |u| ensures MatchLength(p, (u + (m + v))[i..]).None? {
      var w := (u + (m + v))[i..];
      if i + |t| <= |u| {
        assert !OccursAt(u, t, i);
        assert w[..|t|] == u[i..i + |t|];
      } else {
        var j := |u| - i;
        assert w[j] == m[0] == t[0];
        assert t[j] != t[0];
      }
      assert !(t <= w);
    }
  }

  /** A tag behind text holding no occurrence of its prefix is replaced, and the scan goes on after it. */
  lemma TagReplaced(prefix: string, minBody: nat, u: string, body: string, v: string, repl: string)
    requires prefix != [] && forall k :: 0 < k < |prefix| ==> prefix[k] != prefix[0]
    requires !Includes(u, prefix) && '>' !in body && |body| >= minBody
    ensures Replace(Tag(prefix, minBody), u + (prefix + body + ">") + v, repl) ==
      u + repl + Replace(Tag(prefix, minBody), v, repl)
  {
    var m := prefix + body + ">";
    TagMatches(prefix, minBody, body, v);
    StartSkips(Tag(prefix, minBody), prefix, u, m, v);
    MatchBehindSkip(Tag(prefix, minBody), u, m, v, repl);
  }

  /** Every `<h3...>` becomes a bullet on a new paragraph. */
  lemma HeadingBecomesBullet(u: string, body: string, v: string)
    requires !Includes(u, "<h3") && '>' !in body
    ensures Replace(H3Open, u + ("<h3" + body + ">") + v, Bullet) == u + Bullet + Replace(H3Open, v, Bullet)
  {
    TagReplaced("<h3", 0, u, body, v, Bullet);
  }

  /** A heading behind an earlier closing tag still becomes a bullet. */
  lemma HeadingAfterTagExample()
    ensures Replace(H3Open, "A</h3>" + ("<h3" + "" + ">") + "B", Bullet) == "A</h3>" + Bullet + Replace(H3Open, "B", Bullet)
  {
    var u := "A</h3>";
    forall i ensures !OccursAt(u, "<h3", i) {
      if 0 <= i && i + 3 <= |u| {
        assert u[i..i + 3][0] == u[i] && u[i..i + 3][1] == u[i + 1];
        assert i == 0 || i == 1 || i == 2 || i == 3;
      }
    }
    HeadingBecomesBullet(u, "", "B");
  }

  /** Every `</h3>` becomes a line break. */
  lemma HeadingEndBecomesBreak(u: string, v: string)
    requires !Includes(u, "</h3>")
    ensures Replace(H3Close, u + "</h3>" + v, LineBreak) == u + LineBreak + Replace(H3Close, v, LineBreak)
  {
    var m := "</h3>";
    assert m <= m + v;
    StartSkips(H3Close, m, u, m, v);
    MatchBehindSkip(H3Close, u, m, v, LineBreak);
  }

  /** Every `<li...>` becomes an indented dash on a new line. */
  lemma ListItemBecomesDash(u: string, body: string, v: string)
    requires !Includes(u, "<li") && '>' !in body
    ensures Replace(ListItem, u + ("<li" + body + ">") + v, Dash) == u + Dash + Replace(ListItem, v, Dash)
  {
    TagReplaced("<li", 0, u, body, v, Dash);
  }

  /** Every other tag, '<', a non-empty body without '>', and '>', is removed. */
  lemma OtherTagRemoved(u: string, body: string, v: string)
    requires '<' !in u && '>' !in body && body != []
    ensures Replace(AnyTag, u + ("<" + body + ">") + v, "") == u + Replace(AnyTag, v, "")
  {
    var m := "<" + body + ">";
    TagMatches("<", 1, body, v);
    NoAngleSkips(AnyTag, u, m + v);
    MatchBehindSkip(AnyTag, u, m, v, "");
    assert u + "" == u;
  }

  /** Every `&amp;` becomes '&', and the scan resumes behind it. */
  lemma AmpDecoded(u: string, v: string)
    requires !Includes(u, "&amp;")
    ensures Replace(Amp, u + "&amp;" + v, "&") == u + "&" + Replace(Amp, v, "&")
  {
    var m := "&amp;";
    assert m <= m + v;
    StartSkips(Amp, m, u, m, v);
    MatchBehindSkip(Amp, u, m, v, "&");
  }

  /**
   * The string holds nothing the pattern `<[^>]+>` matches: after each '<'
   * either '>' follows at once or no '>' comes at all.
   */
  predicate TagFree(s: string)
  {
    forall i :: 0 <= i < |s| && s[i] == '<' ==> (i + 1 < |s| && s[i + 1] == '>') || '>' !in s[i + 1..]
  }

  /** `TagFree` describes exactly the strings that `<[^>]+>` matches nowhere in. */
  lemma TagFreeIsNoMatch(s: string)
    ensures TagFree(s) <==> NoMatch(Tag("<", 1), s)
  {
    forall i | 0 <= i < |s|
      ensures (s[i] == '<' ==> (i + 1 < |s| && s[i + 1] == '>') || '>' !in s[i + 1..])
        <==> MatchLength(Tag("<", 1), s[i..]).None?
    {
      var t := s[i..];
      assert t[1..] == s[i + 1..];
      if s[i] == '<' {
        assert "<" <= t;
        var g := FindGt(t, 1);
        if g.Some? {
          assert s[i + 1..][g.value - 1] == '>';
        } else {
          var u := s[i + 1..];
          assert '>' !in u by {
            forall k | 0 <= k < |u| ensures u[k] != '>' { assert t[k + 1] == u[k]; }
          }
        }
        if '>' in s[i + 1..] {
          var k :| 0 <= k < |s[i + 1..]| && s[i + 1..][k] == '>';
          assert t[k + 1] == '>';
        }
      }
    }
  }

  /** Putting a character in front of a tag-free string keeps it tag-free, given the condition on a leading '<'. */
  lemma TagFreeCons(c: char, r: string)
    requires TagFree(r)
    requires c == '<' ==> (r != [] && r[0] == '>') || '>' !in r
    ensures TagFree([c] + r)
  {
    var s := [c] + r;
    forall i | 0 <= i < |s| && s[i] == '<' ensures (i + 1 < |s| && s[i + 1] == '>') || '>' !in s[i + 1..] {
      assert s[1..] == r;
      if i > 0 {
        assert s[i] == r[i - 1] && s[i + 1..] == r[i..];
      }
    }
  }

  /** A slice of a tag-free string is tag-free. */
  lemma TagFreeSlice(s: string, a: int, b: int)
    requires TagFree(s) && 0 <= a <= b <= |s|
    ensures TagFree(s[a..b])
  {
    var t := s[a..b];
    forall i | 0 <= i < |t| && t[i] == '<' ensures (i + 1 < |t| && t[i + 1] == '>') || '>' !in t[i + 1..] {
      assert s[a + i] == '<';
      if '>' in t[i + 1..] {
        var k :| 0 <= k < |t[i + 1..]| && t[i + 1..][k] == '>';
        assert s[a + i + 1 + k] == '>';
        assert '>' in s[a + i + 1..] by { assert s[a + i + 1..][k] == '>'; }
        assert s[a + i + 1] == '>';
        assert t[i + 1] == s[a + i + 1];
      }
    }
  }

  /** Stripping every `<[^>]+>` leaves no such tag, even where removing one tag brings unrelated brackets together. */
  lemma {:induction false} StripLeavesNoTag(s: string)
    ensures TagFree(Replace(AnyTag, s, ""))
    decreases |s|
  {
    if s != [] {
      match MatchLength(AnyTag, s)
      case Some(n) =>
        StripLeavesNoTag(s[n..]);
        ReplaceJumps(AnyTag, s, "", n);
      case None =>
        StripLeavesNoTag(s[1..]);
        StripCopies(s);
    }
  }

  /** A character where no tag starts is kept in front of the tag-free rest, which stays tag-free. */
  lemma StripCopies(s: string)
    requires s != [] && MatchLength(AnyTag, s).None?
    requires TagFree(Replace(AnyTag, s[1..], ""))
    ensures TagFree(Replace(AnyTag, s, ""))
  {
    if s[0] == '<' { UnmatchedAngle(s); }
    TagFreeCons(s[0], Replace(AnyTag, s[1..], ""));
    ReplaceCopies(AnyTag, s, "");
  }

  /**
   * A '<' where no tag matches is followed, once the rest is stripped,
   * either by '>' at once or by no '>' at all.
   */
  lemma UnmatchedAngle(s: string)
    requires s != [] && s[0] == '<' && MatchLength(AnyTag, s).None?
    ensures var r := Replace(AnyTag, s[1..], ""); (r != [] && r[0] == '>') || '>' !in r
  {
    var r := Replace(AnyTag, s[1..], "");
    assert "<" <= s;
    if '>' in r {
      ReplaceChars(AnyTag, s[1..], "", '>');
      var g := FindGt(s, 1);
      assert g.Some? && g.value == 1;
      assert MatchLength(AnyTag, s[1..]).None?;
    }
  }

  /** Decoding `&amp;` keeps a tag-free string tag-free. */
  lemma {:induction false} DecodeKeepsTagFree(s: string)
    requires TagFree(s)
    ensures TagFree(Replace(Amp, s, "&"))
    decreases |s|
  {
    if s != [] {
      match MatchLength(Amp, s)
      case Some(n) =>
        TagFreeSlice(s, n, |s|);
        DecodeKeepsTagFree(s[n..]);
        TagFreeCons('&', Replace(Amp, s[n..], "&"));
      case None =>
        var r := Replace(Amp, s[1..], "&");
        TagFreeSlice(s, 1, |s|);
        DecodeKeepsTagFree(s[1..]);
        if s[0] == '<' {
          if |s| > 1 && s[1] == '>' {
            assert MatchLength(Amp, s[1..]).None?;
            assert r[0] == '>';
          } else if '>' in r {
            ReplaceChars(Amp, s[1..], "&", '>');
          }
        }
        TagFreeCons(s[0], r);
        ReplaceCopies(AnyTag, s, "");
    }
  }

  /** The text shown when the job has no description. */
  const NoDescription := "No description available."

  /**
   * `formatDescription`: the placeholder for an empty description; otherwise
   * the five replacements in order (headings to bullets, heading ends to a
   * line break, list items to dashes, all other tags removed, `&amp;` to
   * `&`) and a trim. The result never holds a `<[^>]+>` tag and neither
   * begins nor ends with whitespace.
   */
  function FormatDescription(html: string): (r: string)
    ensures html == [] ==> r == NoDescription
    ensures html != [] ==> TagFree(r) && Trimmed(r)
  {
    if html == [] then NoDescription
    else
      var headed := Replace(H3Open, html, Bullet);
      var closed := Replace(H3Close, headed, LineBreak);
      var listed := Replace(ListItem, closed, Dash);
      var stripped := Replace(AnyTag, listed, "");
      var decoded := Replace(Amp, stripped, "&");
      StripLeavesNoTag(listed);
      DecodeKeepsTagFree(stripped);
      TrimKeepsTagFree(decoded);
      Trim(decoded)
  }

  /** Trimming keeps a tag-free string tag-free. */
  lemma TrimKeepsTagFree(s: string)
    requires TagFree(s)
    ensures TagFree(Trim(s))
  {
    var a, b :| 0 <= a <= b <= |s| && Trim(s) == s[a..b] && AllWhitespace(s[..a]) && AllWhitespace(s[b..]);
    TagFreeSlice(s, a, b);
  }

  /** A pattern that begins with '<' matches nowhere in a string without '<'. */
  lemma NoAngleNoMatch(p: Pattern, s: string)
    requires p.Tag? ==> p.prefix != [] && p.prefix[0] == '<'
    requires p.Literal? ==> p.text != [] && p.text[0] == '<'
    requires '<' !in s
    ensures NoMatch(p, s)
  {
    forall i | 0 <= i < |s| ensures MatchLength(p, s[i..]).None? {
      assert s[i..][0] == s[i];
    }
  }

  /** A string with no whitespace is its own trim. */
  lemma TrimNoWhitespace(s: string)
    requires forall k :: 0 <= k < |s| ==> !IsWhitespace(s[k])
    ensures Trim(s) == s
  {
    var a, b :| 0 <= a <= b <= |s| && Trim(s) == s[a..b] && AllWhitespace(s[..a]) && AllWhitespace(s[b..]);
    if a > 0 { assert s[..a][0] == s[0]; }
    if b < |s| { assert s[b..][0] == s[b]; }
  }

  /** The printable ASCII characters other than space are not whitespace. */
  lemma PrintableAscii(c: char)
    requires '!' <= c <= '~'
    ensures !IsWhitespace(c)
  {
  }

  /** The sample description of the single-pass decoding example. */
  const DoubleEscaped := "&amp;amp;"

  /** The four tag passes leave a description without '<' alone. */
  lemma TagPassesSkip(s: string)
    requires '<' !in s
    ensures Replace(AnyTag, Replace(ListItem, Replace(H3Close, Replace(H3Open, s, Bullet), "\n"), Dash), "") == s
  {
    NoAngleNoMatch(H3Open, s);
    ReplaceNoMatch(H3Open, s, Bullet);
    NoAngleNoMatch(H3Close, s);
    ReplaceNoMatch(H3Close, s, "\n");
    NoAngleNoMatch(ListItem, s);
    ReplaceNoMatch(ListItem, s, Dash);
    NoAngleNoMatch(AnyTag, s);
    ReplaceNoMatch(AnyTag, s, "");
  }

  /** One decoding pass turns "&amp;amp;" into "&amp;". */
  lemma DecodeOnce()
    ensures Replace(Amp, DoubleEscaped, "&") == "&amp;"
  {
    var rest := DoubleEscaped[5..];
    assert MatchLength(Amp, DoubleEscaped) == Some(5);
    assert rest == "amp;";
    forall i | 0 <= i < |rest| ensures MatchLength(Amp, rest[i..]).None? {
      assert rest[i..][0] != '&';
    }
    ReplaceNoMatch(Amp, rest, "&");
  }

  /** "&amp;" has no whitespace to trim. */
  lemma TrimDecoded()
    ensures Trim("&amp;") == "&amp;"
  {
    var r := "&amp;";
    forall k | 0 <= k < |r| ensures !IsWhitespace(r[k]) {
      assert r[k] in "&amp;";
      PrintableAscii(r[k]);
    }
    TrimNoWhitespace(r);
  }

  /** A non-empty description without '<' is only decoded and trimmed. */
  lemma TagFreeDescription(s: string)
    requires s != [] && '<' !in s
    ensures FormatDescription(s) == Trim(Replace(Amp, s, "&"))
  {
    TagPassesSkip(s);
  }

  /** `&amp;` is decoded in one pass, so "&amp;amp;" shows as "&amp;". */
  lemma SinglePassDecode()
    ensures FormatDescription(DoubleEscaped) == "&amp;"
  {
    assert '<' !in DoubleEscaped;
    TagFreeDescription(DoubleEscaped);
    DecodeOnce();
    TrimDecoded();
  }

  /**
   * `handleSaveToggle` against the in-memory provider, the one the
   * extensionless import `../../contexts/JobContext` resolves to: removes the
   * job when it is saved and saves it otherwise, so its saved state is flipped.
   */
  method HandleSaveToggle(store: JobStore, job: Job)
    modifies store
    ensures store.IsJobSaved(job.id) == !old(store.IsJobSaved(job.id))
    ensures old(store.IsJobSaved(job.id)) ==> store.savedJobs == WithoutId(old(store.savedJobs), job.id)
    ensures !old(store.IsJobSaved(job.id)) ==> store.savedJobs == old(store.savedJobs) + [SavedCopy(job)]
    ensures old(store.Valid()) ==> store.Valid()
  {
    var isSaved := store.IsJobSaved(job.id);
    if isSaved {
      store.RemoveJob(job.id);
    } else {
      store.SaveJob(job);
    }
  }

  /**
   * `handleSaveToggle` against the persistent provider: the same flip, and
   * storage holds the new list afterwards.
   */
  method HandleSaveTogglePersistent(store: PersistentJobStore, job: Job)
    modifies store
    ensures store.IsJobSaved(job.id) == !old(store.IsJobSaved(job.id))
    ensures old(store.IsJobSaved(job.id)) ==> store.savedJobs == WithoutId(old(store.savedJobs), job.id)
    ensures !old(store.IsJobSaved(job.id)) ==> store.savedJobs == old(store.savedJobs) + [SavedCopy(job)]
    ensures store.InSync()
  {
    var isSaved := store.IsJobSaved(job.id);
    if isSaved {
      store.RemoveJob(job.id);
    } else {
      store.SaveJob(job);
    }
  }
}
