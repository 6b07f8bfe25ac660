/** The chapter generator: who narrates each chapter, the flags and glyphs a
    chapter carries, the placeholders of a chapter template, the navigation
    links of a page and the metadata record written for each chapter. */
module Generator {
  import opened Common
  import opened Json
  import opened Text
  import Doc
  import Validator

  // ---------------------------------------------------------------------
  // Voices and the narrator rotation

  datatype Voice = Limnus | Garden | Kira

  /** The voice's name as the metadata spells it. */
  function Name(v: Voice): (r: string)
    ensures r in Validator.NAMES
  {
    match v
    case Limnus => "Limnus"
    case Garden => "Garden"
    case Kira => "Kira"
  }

  /** `VOICES`, in rotation order. */
  const VOICES: seq<Voice> := [Limnus, Garden, Kira]

  /** The number of chapters the generator produces. */
  const CHAPTERS: nat := 20

  /** The voices' names are the ones the rotation check counts, in the same order. */
  lemma NamesAreCounted()
    ensures |VOICES| == |Validator.NAMES|
    ensures forall j :: 0 <= j < |VOICES| ==> Name(VOICES[j]) == Validator.NAMES[j]
  {
  }

  /** The narrator `main` picks for chapter i: the bespoke first three, then the rotation. */
  function NarratorOf(i: int): (v: Voice)
    requires 1 <= i <= CHAPTERS
    ensures v == VOICES[(i - 1) % 3]
  {
    if i == 1 then VOICES[0]
    else if i == 2 then VOICES[1]
    else if i == 3 then VOICES[2]
    else VOICES[(i - 1) % 3]
  }

  /** The directory the chapter pages live in, as recorded in the metadata. */
  const FRONTEND := "frontend/"

  /** The page `main` records for chapter i, relative to `frontend/`. */
  function PageOf(i: int): (r: string)
    requires 1 <= i <= CHAPTERS
    ensures EndsWith(r, ".html")
    // the three hand-written pages keep their names; the generated ones are numbered
    ensures StartsWith(r, "chapter") <==> i >= 4
  {
    if i < 4 then
      var stem := if i == 1 then "limnus_ch1" else if i == 2 then "garden_ch1" else "kira_ch1";
      assert stem[0] != 'c';
      Affixes(stem, ".html");
      stem + ".html"
    else
      Affixes("chapter" + Pad2(i), ".html");
      Affixes("chapter", Pad2(i));
      "chapter" + Pad2(i) + ".html"
  }

  /** The page names as `main` spells them. */
  lemma PageNames(i: int)
    requires 1 <= i <= CHAPTERS
    ensures i == 1 ==> PageOf(i) == "limnus_ch1.html"
    ensures i == 2 ==> PageOf(i) == "garden_ch1.html"
    ensures i == 3 ==> PageOf(i) == "kira_ch1.html"
    ensures i >= 4 ==> PageOf(i) == "chapter" + Pad2(i) + ".html"
  {
    if i == 1 {
      assert "limnus_ch1" + ".html" == "limnus_ch1.html";
    } else if i == 2 {
      assert "garden_ch1" + ".html" == "garden_ch1.html";
    } else if i == 3 {
      assert "kira_ch1" + ".html" == "kira_ch1.html";
    }
  }

  /** A concatenation starts with its first part and ends with its second. */
  lemma Affixes(a: string, b: string)
    ensures StartsWith(a + b, a) && EndsWith(a + b, b)
  {
    assert (a + b)[..|a|] == a;
    assert (a + b)[|a + b| - |b|..] == b;
  }

  /** Distinct chapters have distinct pages. */
  lemma PagesDistinct(i: int, j: int)
    requires 1 <= i <= CHAPTERS && 1 <= j <= CHAPTERS && i != j
    ensures PageOf(i) != PageOf(j)
  {
    if i >= 4 && j >= 4 {
      Pad2TwoDigits(i);
      Pad2TwoDigits(j);
      assert PageOf(i)[7..9] == Pad2(i) && PageOf(j)[7..9] == Pad2(j);
    } else if i >= 4 {
      assert PageOf(i)[0] == 'c';
    } else if j >= 4 {
      assert PageOf(j)[0] == 'c';
    }
  }

  // ---------------------------------------------------------------------
  // FLAGS_MAP

  /** The colour channel a voice owns. */
  function Channel(v: Voice): string
  {
    match v
    case Limnus => "R"
    case Garden => "G"
    case Kira => "B"
  }

  /** `FLAGS_MAP[name]`, with the key order of its literal. */
  function FlagsFor(v: Voice): (r: Dict<string>)
    // the voice's own channel comes first, and it is the active one
    ensures |r| == 3 && r[0] == (Channel(v), "active")
    ensures r[1].1 == "latent" && r[2].1 == "latent"
  {
    match v
    case Limnus => [("R", "active"), ("G", "latent"), ("B", "latent")]
    case Garden => [("G", "active"), ("R", "latent"), ("B", "latent")]
    case Kira => [("B", "active"), ("R", "latent"), ("G", "latent")]
  }

  /** Each entry has the keys R, G and B once each; the voice's own channel is
      the one "active" flag and the other two are "latent". */
  lemma FlagsMapShape(v: Voice)
    ensures var f := FlagsFor(v);
      && |f| == 3 && DistinctKeys(f)
      && Elems(Keys(f)) == {"R", "G", "B"}
      && forall i :: 0 <= i < |f| ==> f[i].1 == (if f[i].0 == Channel(v) then "active" else "latent")
  {
    var f := FlagsFor(v);
    assert Keys(f) == [f[0].0, f[1].0, f[2].0];
  }

  /** The flag a voice's entry gives channel c. */
  function FlagOf(v: Voice, c: string): string
  {
    if c == Channel(v) then "active" else "latent"
  }

  /** Every FLAGS_MAP entry, whatever its key order, holds exactly R, G and B,
      so the layout `json.dumps(..., sort_keys=True)` gives a record carrying
      it is a reordering of its `as_dict`. */
  lemma FlagsForSorted(v: Voice, doc: Doc.StegoDoc)
    requires doc.flags == FlagsFor(v)
    ensures Doc.RGBFlags(doc.flags, FlagOf(v, "R"), FlagOf(v, "G"), FlagOf(v, "B"))
    ensures Reordered(Doc.SortedRecord(doc, FlagOf(v, "R"), FlagOf(v, "G"), FlagOf(v, "B")), Doc.AsDict(doc))
  {
    var f := FlagsFor(v);
    assert Keys(f) == [f[0].0, f[1].0, f[2].0];
    GetAt(f, 0, f[0].0);
    GetAt(f, 1, f[1].0);
    GetAt(f, 2, f[2].0);
    forall k | HasKey(f, k)
      ensures k == "R" || k == "G" || k == "B"
    {
      var i :| 0 <= i < |f| && f[i].0 == k;
    }
    Doc.SortedRecordReordered(doc, FlagOf(v, "R"), FlagOf(v, "G"), FlagOf(v, "B"));
  }

  // ---------------------------------------------------------------------
  // Glyphs

  /** The glyph prefix of each voice. */
  function Base(v: Voice): (r: string)
    ensures |r| == 2
  {
    match v
    case Limnus => "\U{27E1}R"
    case Garden => "\U{27E2}G"
    case Kira => "\U{27E3}B"
  }

  /** `glyphs_for(narrator, chapter)`. */
  function GlyphsFor(v: Voice, chapter: int): (r: seq<string>)
    ensures |r| == 3
    ensures forall k :: 0 <= k < 3 ==> StartsWith(r[k], Base(v) + Pad2(chapter) + "-")
    // the k-th glyph ends with k + 1, counting from 1 as `range(1, 4)` does
    ensures forall k :: 0 <= k < 3 ==> EndsWith(r[k], Decimal(k + 1))
  {
    var r := seq(3, k requires 0 <= k < 3 => Base(v) + Pad2(chapter) + "-" + Decimal(k + 1));
    forall k | 0 <= k < 3
      ensures EndsWith(r[k], Decimal(k + 1))
    {
      assert r[k][|r[k]| - |Decimal(k + 1)|..] == Decimal(k + 1);
    }
    r
  }

  /** Distinct voices have distinct glyph prefixes. */
  lemma BaseInjective(v1: Voice, v2: Voice)
    requires Base(v1) == Base(v2)
    ensures v1 == v2
  {
    assert Base(v1)[0] == Base(v2)[0];
  }

  /** `str(k)` for k in 1..3 names k. */
  lemma SmallDecimalInjective(k1: nat, k2: nat)
    requires 1 <= k1 <= 3 && 1 <= k2 <= 3 && Decimal(k1) == Decimal(k2)
    ensures k1 == k2
  {
    DigitsValueOfNatDecimal(k1);
    DigitsValueOfNatDecimal(k2);
  }

  /** A glyph of a chapter 0..99 names its voice, its chapter and its place
      among the three. */
  lemma GlyphsInjective(v1: Voice, c1: int, k1: nat, v2: Voice, c2: int, k2: nat)
    requires 0 <= c1 < 100 && 0 <= c2 < 100 && k1 < 3 && k2 < 3
    requires GlyphsFor(v1, c1)[k1] == GlyphsFor(v2, c2)[k2]
    ensures v1 == v2 && c1 == c2 && k1 == k2
  {
    var x1, x2 := Base(v1) + Pad2(c1) + "-", Base(v2) + Pad2(c2) + "-";
    Pad2TwoDigits(c1);
    Pad2TwoDigits(c2);
    assert |x1| == |x2| == 5;
    ConcatSplit(x1, Decimal(k1 + 1), x2, Decimal(k2 + 1));
    SmallDecimalInjective(k1 + 1, k2 + 1);
    ConcatSplitEnd(Base(v1) + Pad2(c1), "-", Base(v2) + Pad2(c2), "-");
    ConcatSplit(Base(v1), Pad2(c1), Base(v2), Pad2(c2));
    BaseInjective(v1, v2);
    Pad2Injective(c1, c2);
  }

  // ---------------------------------------------------------------------
  // The flags line and the template placeholders

  /** `flags['R']` and its siblings raise KeyError for a missing channel. */
  datatype FillError = MissingFlag(key: string)

  /** The flags line `fill_placeholders` writes: always R, G, B in that order. */
  function FlagsLine(flags: Dict<string>): (r: Result<string, FillError>)
    ensures r.Err? <==> !HasKey(flags, "R") || !HasKey(flags, "G") || !HasKey(flags, "B")
    ensures r.Err? ==> r.error == MissingFlag(if !HasKey(flags, "R") then "R" else if !HasKey(flags, "G") then "G" else "B")
  {
    match (Get(flags, "R"), Get(flags, "G"), Get(flags, "B"))
    case (None, _, _) => Err(MissingFlag("R"))
    case (_, None, _) => Err(MissingFlag("G"))
    case (_, _, None) => Err(MissingFlag("B"))
    case (Some(r), Some(g), Some(b)) => Ok("R " + r + ", G " + g + ", B " + b)
  }

  /** The flags line depends only on the values of R, G and B, not on the
      order of the dict. */
  lemma FlagsLineOrderFree(f1: Dict<string>, f2: Dict<string>)
    requires Get(f1, "R") == Get(f2, "R") && Get(f1, "G") == Get(f2, "G") && Get(f1, "B") == Get(f2, "B")
    ensures FlagsLine(f1) == FlagsLine(f2)
  {
  }

  /** No character of s is a comma. */
  predicate CommaFree(s: string)
  {
    forall i :: 0 <= i < |s| ==> s[i] != ','
  }

  /** A one-word value the flags parser reads back: no whitespace, no comma. */
  predicate FlagValue(s: string)
  {
    IsWord(s) && CommaFree(s)
  }

  /** `" K v"`, with whatever whitespace around it, strips to `"K v"`. */
  lemma StripFlagPart(key: char, value: string)
    requires !IsSpace(key) && IsWord(value)
    ensures Strip([' ', key, ' '] + value) == [key, ' '] + value
  {
    var s := [' ', key, ' '] + value;
    assert s[1..] == [key, ' '] + value;
    StripUntouched([key, ' '] + value);
  }

  /** A flags line is its three parts joined by commas. */
  lemma FlagsLineParts(a: string, b: string, c: string)
    ensures "R " + a + ", G " + b + ", B " + c == ("R " + a) + [','] + ((" G " + b) + [','] + (" B " + c))
  {
  }

  /** A flag part built from comma-free text is comma-free. */
  lemma FlagPartCommaFree(prefix: string, value: string)
    requires CommaFree(prefix) && CommaFree(value)
    ensures CommaFree(prefix + value)
  {
  }

  /** The parts of a flags line. */
  lemma SplitFlagsLine(a: string, b: string, c: string)
    requires CommaFree(a) && CommaFree(b) && CommaFree(c)
    ensures SplitOn("R " + a + ", G " + b + ", B " + c, ',') == ["R " + a, " G " + b, " B " + c]
  {
    var x := "R " + a;
    var y := " G " + b;
    var z := " B " + c;
    FlagsLineParts(a, b, c);
    FlagPartCommaFree("R ", a);
    FlagPartCommaFree(" G ", b);
    FlagPartCommaFree(" B ", c);
    SplitOnNone(z, ',');
    SplitOnCons(y, ',', z);
    SplitOnCons(x, ',', y + [','] + z);
  }

  /** The tokens of `"K v"`. */
  lemma KeyValueTokens(key: char, value: string)
    requires !IsSpace(key) && IsWord(value)
    ensures Tokens([key, ' '] + value) == [[key], value]
  {
    assert [key] + " " + value == [key, ' '] + value;
    TokensOfPair([key], " ", value);
  }

  /** The tokens of the first part of a flags line. */
  lemma FirstPartTokens(key: char, value: string)
    requires !IsSpace(key) && IsWord(value)
    ensures Tokens(Strip([key, ' '] + value)) == [[key], value]
  {
    KeyValueTokens(key, value);
    StripUntouched([key, ' '] + value);
  }

  /** The tokens of a later part of a flags line, which starts with a space. */
  lemma LaterPartTokens(key: char, value: string)
    requires !IsSpace(key) && IsWord(value)
    ensures Tokens(Strip([' ', key, ' '] + value)) == [[key], value]
  {
    KeyValueTokens(key, value);
    StripFlagPart(key, value);
  }

  /** Storing a fresh key appends it to the dict built so far. */
  lemma FlagsOfFresh(tokens: seq<seq<string>>, i: nat, d: Dict<string>, k: string, v: string)
    requires i < |tokens| && Validator.FlagsOf(tokens[..i]) == d
    requires tokens[i] == [k, v] && !HasKey(d, k)
    ensures Validator.FlagsOf(tokens[..i + 1]) == d + [(k, v)]
  {
    Validator.FlagsOfSnoc(tokens, i);
  }

  /** Storing R, G and B in turn into an empty dict, from any token list
      whose three parts are `[R, a]`, `[G, b]` and `[B, c]`. */
  lemma PutRGB(tokens: seq<seq<string>>, a: string, b: string, c: string)
    requires |tokens| == 3
    requires tokens[0] == ["R", a] && tokens[1] == ["G", b] && tokens[2] == ["B", c]
    ensures Validator.FlagsOf(tokens) == [("R", a), ("G", b), ("B", c)]
  {
    assert tokens[..0] == [];
    var d0: Dict<string> := [];
    FlagsOfFresh(tokens, 0, d0, "R", a);
    var d1 := d0 + [("R", a)];
    assert !HasKey(d1, "G") by { assert d1[0].0 == "R" != "G"; }
    FlagsOfFresh(tokens, 1, d1, "G", b);
    var d2 := d1 + [("G", b)];
    assert !HasKey(d2, "B") by { assert d2[0].0 == "R" != "B" && d2[1].0 == "G" != "B"; }
    FlagsOfFresh(tokens, 2, d2, "B", c);
    assert tokens[..3] == tokens;
    assert d2 + [("B", c)] == [("R", a), ("G", b), ("B", c)];
  }

  /** One part's tokens inside `PartTokens`. */
  lemma PartTokensAt(parts: seq<string>, i: nat, t: seq<string>)
    requires i < |parts| && Tokens(Strip(parts[i])) == t
    ensures Validator.PartTokens(parts)[i] == t
  {
  }

  /** The first part of a flags line, `"R a"`, has the tokens R and a. */
  lemma FirstPartAt(parts: seq<string>, key: char, value: string)
    requires |parts| > 0 && parts[0] == [key, ' '] + value
    requires !IsSpace(key) && IsWord(value)
    ensures Validator.PartTokens(parts)[0] == [[key], value]
  {
    FirstPartTokens(key, value);
    PartTokensAt(parts, 0, [[key], value]);
  }

  /** A later part of a flags line, `" K v"`, has the tokens K and v. */
  lemma LaterPartAt(parts: seq<string>, i: nat, key: char, value: string)
    requires i < |parts| && parts[i] == [' ', key, ' '] + value
    requires !IsSpace(key) && IsWord(value)
    ensures Validator.PartTokens(parts)[i] == [[key], value]
  {
    LaterPartTokens(key, value);
    PartTokensAt(parts, i, [[key], value]);
  }

  /** The parts of a flags line store R, G and B in turn. */
  lemma FlagsLinePartsStored(parts: seq<string>, a: string, b: string, c: string)
    requires IsWord(a) && IsWord(b) && IsWord(c)
    requires |parts| == 3
    requires parts[0] == ['R', ' '] + a && parts[1] == [' ', 'G', ' '] + b && parts[2] == [' ', 'B', ' '] + c
    ensures Validator.FlagsOf(Validator.PartTokens(parts)) == [("R", a), ("G", b), ("B", c)]
  {
    FirstPartAt(parts, 'R', a);
    LaterPartAt(parts, 1, 'G', b);
    LaterPartAt(parts, 2, 'B', c);
    PutRGB(Validator.PartTokens(parts), a, b, c);
  }

  /** Parsing the flags line `fill_placeholders` writes gives back R, G and B
      with their values, in that order. */
  lemma ParseFlagsLine(a: string, b: string, c: string)
    requires FlagValue(a) && FlagValue(b) && FlagValue(c)
    ensures Validator.ParseFlags("R " + a + ", G " + b + ", B " + c) == [("R", a), ("G", b), ("B", c)]
  {
    SplitFlagsLine(a, b, c);
    FlagsLinePartsStored(["R " + a, " G " + b, " B " + c], a, b, c);
  }

  /** The cross-file round trip: for a dict whose R, G and B values are single
      comma-free words, the validator's parser reads exactly those three
      entries back from the generated flags line, in R, G, B order. */
  lemma FlagsLineRoundTrip(flags: Dict<string>)
    requires HasKey(flags, "R") && HasKey(flags, "G") && HasKey(flags, "B")
    requires FlagValue(Get(flags, "R").value) && FlagValue(Get(flags, "G").value) && FlagValue(Get(flags, "B").value)
    ensures Validator.ParseFlags(FlagsLine(flags).value)
      == [("R", Get(flags, "R").value), ("G", Get(flags, "G").value), ("B", Get(flags, "B").value)]
  {
    var a, b, c := Get(flags, "R").value, Get(flags, "G").value, Get(flags, "B").value;
    assert FlagsLine(flags) == Ok("R " + a + ", G " + b + ", B " + c);
    ParseFlagsLine(a, b, c);
  }

  /** A dict whose keys are exactly R, G and B agrees with its entries listed
      in R, G, B order. */
  lemma RGBReordered(f: Dict<string>)
    requires HasKey(f, "R") && HasKey(f, "G") && HasKey(f, "B")
    requires forall k :: HasKey(f, k) ==> k == "R" || k == "G" || k == "B"
    ensures forall k :: Get([("R", Get(f, "R").value), ("G", Get(f, "G").value), ("B", Get(f, "B").value)], k) == Get(f, k)
  {
    var d := [("R", Get(f, "R").value), ("G", Get(f, "G").value), ("B", Get(f, "B").value)];
    GetAt(d, 1, "G");
    GetAt(d, 2, "B");
    forall k
      ensures Get(d, k) == Get(f, k)
    {
      if k != "R" && k != "G" && k != "B" {
        assert !HasKey(d, k);
      }
    }
  }

  /** The R, G and B values of every FLAGS_MAP entry are single comma-free words. */
  lemma FlagsForValues(v: Voice)
    ensures var f := FlagsFor(v);
      && HasKey(f, "R") && HasKey(f, "G") && HasKey(f, "B")
      && (forall k :: HasKey(f, k) ==> k == "R" || k == "G" || k == "B")
      && FlagValue(Get(f, "R").value) && FlagValue(Get(f, "G").value) && FlagValue(Get(f, "B").value)
  {
    var f := FlagsFor(v);
    assert f[0].0 != f[1].0 && f[0].0 != f[2].0 && f[1].0 != f[2].0;
    GetEntry(f, 0);
    GetEntry(f, 1);
    GetEntry(f, 2);
    assert FlagValue("active") && FlagValue("latent");
  }

  /** The flags line of every voice parses back to the same dict as its
      FLAGS_MAP entry, up to key order: every key has the same value or is
      absent from both. */
  lemma FlagsForRoundTrip(v: Voice)
    ensures FlagsLine(FlagsFor(v)).Ok?
    ensures forall k :: Get(Validator.ParseFlags(FlagsLine(FlagsFor(v)).value), k) == Get(FlagsFor(v), k)
  {
    var f := FlagsFor(v);
    FlagsForValues(v);
    RGBReordered(f);
    FlagsLineRoundTrip(f);
  }

  /** `" · ".join(glyphs)` after `"Glyphs: "`. */
  function GlyphsLine(glyphs: seq<string>): (r: string)
    ensures StartsWith(r, "Glyphs: ")
  {
    "Glyphs: " + Join(glyphs, " \U{00B7} ")
  }

  /** `fill_placeholders`: the five placeholders, replaced in this order. The
      body text is a parameter. */
  function FillPlaceholders(tpl: string, narrator: Voice, chapter: int, flags: Dict<string>,
                            glyphs: seq<string>, body: string): (r: Result<string, FillError>)
    ensures r.Err? <==> FlagsLine(flags).Err?
  {
    var flagsLine :- FlagsLine(flags);
    var glyphsLine := GlyphsLine(glyphs);
    Ok(ReplaceAll(
         ReplaceAll(
           ReplaceAll(
             ReplaceAll(
               ReplaceAll(tpl, "{{chapter_number}}", Decimal(chapter)),
               "{{narrator}}", Name(narrator)),
             "{{body}}", body),
           "{{flags}}", flagsLine),
         "{{glyphs_line}}", glyphsLine))
  }

  /** No character of s is an opening brace. */
  predicate BraceFree(s: string)
  {
    forall i :: 0 <= i < |s| ==> s[i] != '{'
  }

  /** Template text without an opening brace passes through unchanged. */
  lemma FillPlainText(tpl: string, narrator: Voice, chapter: int, flags: Dict<string>,
                      glyphs: seq<string>, body: string)
    requires BraceFree(tpl) && FlagsLine(flags).Ok?
    ensures FillPlaceholders(tpl, narrator, chapter, flags, glyphs, body) == Ok(tpl)
  {
    BraceFreeUnchanged(tpl, "{{chapter_number}}", Decimal(chapter));
    BraceFreeUnchanged(tpl, "{{narrator}}", Name(narrator));
    BraceFreeUnchanged(tpl, "{{body}}", body);
    BraceFreeUnchanged(tpl, "{{flags}}", FlagsLine(flags).value);
    BraceFreeUnchanged(tpl, "{{glyphs_line}}", GlyphsLine(glyphs));
  }

  /** A placeholder never occurs in text without an opening brace. */
  lemma BraceFreeUnchanged(s: string, pat: string, rep: string)
    requires BraceFree(s) && pat != [] && pat[0] == '{'
    ensures ReplaceAll(s, pat, rep) == s
  {
    forall i | 0 <= i <= |s|
      ensures !OccursAt(s, pat, i)
    {
      if i <= |s| - |pat| {
        assert s[i..i + |pat|][0] == s[i];
      }
    }
    ReplaceAllAbsent(s, pat, rep);
  }

  /** The flags placeholder on a line of its own between brace-free text becomes
      the flags line, and nothing else on the line changes. */
  lemma FillFlagsPlaceholder(pre: string, post: string, narrator: Voice, chapter: int,
                             flags: Dict<string>, glyphs: seq<string>, body: string)
    requires BraceFree(pre) && BraceFree(post) && FlagsLine(flags).Ok? && BraceFree(FlagsLine(flags).value)
    ensures FillPlaceholders(pre + "{{flags}}" + post, narrator, chapter, flags, glyphs, body)
      == Ok(pre + FlagsLine(flags).value + post)
  {
    var tpl := pre + "{{flags}}" + post;
    var line := FlagsLine(flags).value;
    OtherPlaceholder(pre, post, "{{chapter_number}}", Decimal(chapter));
    OtherPlaceholder(pre, post, "{{narrator}}", Name(narrator));
    OtherPlaceholder(pre, post, "{{body}}", body);
    FlagsPlaceholderReplaced(pre, post, line);
    BraceFreeUnchanged(pre + line + post, "{{glyphs_line}}", GlyphsLine(glyphs));
  }

  /** Replacing `{{flags}}` between brace-free text. */
  lemma FlagsPlaceholderReplaced(pre: string, post: string, line: string)
    requires BraceFree(pre) && BraceFree(post) && BraceFree(line)
    ensures ReplaceAll(pre + "{{flags}}" + post, "{{flags}}", line) == pre + line + post
    ensures BraceFree(pre + line + post)
  {
    ReplaceAfterPlain(pre, "{{flags}}" + post, "{{flags}}", line);
    forall i | 0 <= i <= |post|
      ensures !OccursAt(post, "{{flags}}", i)
    {
      if i <= |post| - 9 {
        assert post[i..i + 9][0] == post[i];
      }
    }
    ReplaceAllLeading("{{flags}}", post, line);
    assert pre + "{{flags}}" + post == pre + ("{{flags}}" + post);
    assert pre + (line + post) == pre + line + post;
  }

  /** Replacing in brace-free text followed by more text only touches the latter. */
  lemma {:induction false} ReplaceAfterPlain(pre: string, rest: string, pat: string, rep: string)
    requires BraceFree(pre) && pat != [] && pat[0] == '{'
    ensures ReplaceAll(pre + rest, pat, rep) == pre + ReplaceAll(rest, pat, rep)
    decreases |pre|
  {
    if |pre| > 0 {
      var s := pre + rest;
      if |s| < |pat| {
        assert ReplaceAll(rest, pat, rep) == rest;
      } else {
        assert s[..|pat|] != pat by {
          assert s[..|pat|][0] == s[0] == pre[0];
        }
        var r := ReplaceAll(rest, pat, rep);
        assert s[1..] == pre[1..] + rest;
        ReplaceAfterPlain(pre[1..], rest, pat, rep);
        ConcatAssoc([pre[0]], pre[1..], r);
        assert [pre[0]] + pre[1..] == pre;
      }
    } else {
      assert pre + rest == rest;
    }
  }

  /** A placeholder other than `{{flags}}` leaves a line holding `{{flags}}` alone. */
  lemma OtherPlaceholder(pre: string, post: string, pat: string, rep: string)
    requires BraceFree(pre) && BraceFree(post)
    requires |pat| >= 3 && pat[0] == '{' && pat[1] == '{' && pat[2] != 'f'
    ensures ReplaceAll(pre + "{{flags}}" + post, pat, rep) == pre + "{{flags}}" + post
  {
    var s := pre + "{{flags}}" + post;
    forall i | 0 <= i <= |s|
      ensures !OccursAt(s, pat, i)
    {
      if i <= |s| - |pat| {
        var m := s[i..i + |pat|];
        assert m[0] == s[i] && m[1] == s[i + 1] && m[2] == s[i + 2];
        if i < |pre| {
          assert s[i] == pre[i];
        } else if i >= |pre| + 9 {
          assert s[i] == post[i - |pre| - 9];
        } else if i >= |pre| + 2 {
          assert s[i] == "{{flags}}"[i - |pre|];
        } else {
          assert s[|pre| + 2] == 'f';
        }
      }
    }
    ReplaceAllAbsent(s, pat, rep);
  }

  // ---------------------------------------------------------------------
  // Navigation links of a generated page

  /** The previous link of `wrap_html`, as written: `chapter > 2`. */
  function PrevLink(chapter: int): (r: string)
    ensures chapter <= 2 ==> r == "kira_ch1.html"
    // from chapter 5 on, the link is the previous chapter's page
    ensures 5 <= chapter <= CHAPTERS ==> r == PageOf(chapter - 1)
    // but the first generated chapter points at a numbered page for chapter 3
    ensures chapter == 4 ==> r == "chapter03.html" && r != PageOf(3)
  {
    if chapter > 2 then "chapter" + Pad2(chapter - 1) + ".html" else "kira_ch1.html"
  }

  /** The previous link with the bound at the first generated chapter. */
  function PrevLinkFixed(chapter: int): (r: string)
    // every generated chapter links back to the page of the chapter before it
    ensures 4 <= chapter <= CHAPTERS ==> r == PageOf(chapter - 1)
    // and it differs from the link as written only at chapters 3 and 4
    ensures chapter != 3 && chapter != 4 ==> r == PrevLink(chapter)
  {
    if chapter > 4 then "chapter" + Pad2(chapter - 1) + ".html" else "kira_ch1.html"
  }

  /** The next link of `wrap_html`. */
  function NextLink(chapter: int): (r: string)
    // every chapter from 3 on links on to the page of the chapter after it
    ensures 3 <= chapter < CHAPTERS ==> r == PageOf(chapter + 1)
    // and the last one, or any later number, to the index
    ensures chapter >= CHAPTERS <==> r == "index.html"
  {
    if chapter < 20 then "chapter" + Pad2(chapter + 1) + ".html" else "index.html"
  }

  /** The first generated chapter links back to a page that no chapter has. */
  lemma PrevLinkDangles()
    ensures PrevLink(4) == "chapter03.html"
    ensures forall i :: 1 <= i <= CHAPTERS ==> PageOf(i) != PrevLink(4)
  {
    assert Pad2(3) == "03";
    forall i | 1 <= i <= CHAPTERS
      ensures PageOf(i) != "chapter03.html"
    {
      if i >= 4 {
        Pad2TwoDigits(i);
        Pad2TwoDigits(3);
        assert PageOf(i)[7..9] == Pad2(i);
        assert "chapter03.html"[7..9] == Pad2(3);
      } else {
        assert PageOf(i)[0] != 'c';
      }
    }
  }

  // ---------------------------------------------------------------------
  // The metadata record

  /** The summary field: narrator, an en dash, and the padded chapter number. */
  function Summary(v: Voice, chapter: int): (r: string)
    ensures StartsWith(r, Name(v)) && EndsWith(r, Pad2(chapter))
  {
    var head := Name(v) + " \U{2013} Chapter ";
    var r := head + Pad2(chapter);
    assert r[..|Name(v)|] == Name(v) && r[|head|..] == Pad2(chapter);
    r
  }

  /** Distinct voices have distinct names, and names start differently. */
  lemma NameInjective(v1: Voice, v2: Voice)
    requires Name(v1) != [] && Name(v2) != [] && Name(v1)[0] == Name(v2)[0]
    ensures v1 == v2
  {
  }

  /** A summary of a chapter 0..99 names its narrator and its chapter. */
  lemma SummaryInjective(v1: Voice, c1: int, v2: Voice, c2: int)
    requires 0 <= c1 < 100 && 0 <= c2 < 100
    requires Summary(v1, c1) == Summary(v2, c2)
    ensures v1 == v2 && c1 == c2
  {
    var mid := " \U{2013} Chapter ";
    Pad2TwoDigits(c1);
    Pad2TwoDigits(c2);
    ConcatSplitEnd(Name(v1) + mid, Pad2(c1), Name(v2) + mid, Pad2(c2));
    Pad2Injective(c1, c2);
    ConcatSplitEnd(Name(v1), mid, Name(v2), mid);
    assert Name(v1) != [] && Name(v2) != [];
    NameInjective(v1, v2);
  }

  /** The record `main` writes for chapter i, stamped with the given time. */
  function Record(i: int, timestamp: string): (r: Doc.StegoDoc)
    requires 1 <= i <= CHAPTERS
    ensures r.narrator == Name(VOICES[(i - 1) % 3])
  {
    var v := NarratorOf(i);
    Doc.StegoDoc(i, Name(v), FlagsFor(v), GlyphsFor(v, i), FRONTEND + PageOf(i), Summary(v, i), timestamp)
  }

  /** The metadata list `main` builds, one record per chapter; `now(i)` is the
      clock reading taken for chapter i. */
  function Metadata(now: int -> string): (r: seq<Dict<Json>>)
    ensures |r| == CHAPTERS
  {
    seq(CHAPTERS, k requires 0 <= k < CHAPTERS => Doc.AsDict(Record(k + 1, now(k + 1))).fields)
  }

  /** The record `main` assembles from the narrator and the file it chose. */
  lemma RecordOfChoice(i: int, v: Voice, file: string, timestamp: string)
    requires 1 <= i <= CHAPTERS
    requires v == NarratorOf(i) && file == FRONTEND + PageOf(i)
    ensures Doc.StegoDoc(i, Name(v), FlagsFor(v), GlyphsFor(v, i), file, Summary(v, i), timestamp) == Record(i, timestamp)
  {
  }

  /** Extending a prefix of the metadata by its next entry. */
  lemma MetadataSnoc(meta: seq<Dict<Json>>, n: nat)
    requires n < |meta|
    ensures meta[..n] + [meta[n]] == meta[..n + 1]
  {
  }

  /** The branch of `main`'s loop that picks chapter i's narrator and file:
      the three hand-written pages, then the rotation and the numbered pages. */
  method ChooseChapter(i: int) returns (v: Voice, file: string)
    requires 1 <= i <= CHAPTERS
    ensures v == NarratorOf(i) && file == FRONTEND + PageOf(i)
  {
    PageNames(i);
    if i == 1 {
      v, file := VOICES[0], FRONTEND + "limnus_ch1.html";
    } else if i == 2 {
      v, file := VOICES[1], FRONTEND + "garden_ch1.html";
    } else if i == 3 {
      v, file := VOICES[2], FRONTEND + "kira_ch1.html";
    } else {
      v, file := VOICES[(i - 1) % 3], FRONTEND + ("chapter" + Pad2(i) + ".html");
    }
  }

  /** The loop of `main` that builds the metadata list. */
  method BuildMetadata(now: int -> string) returns (metadata: seq<Dict<Json>>)
    ensures metadata == Metadata(now)
  {
    ghost var all := Metadata(now);
    metadata := [];
    for i := 1 to CHAPTERS + 1
      invariant metadata == all[..i - 1]
    {
      var v, file := ChooseChapter(i);
      var doc := Doc.StegoDoc(i, Name(v), FlagsFor(v), GlyphsFor(v, i), file, Summary(v, i), now(i));
      RecordOfChoice(i, v, file, now(i));
      MetadataSnoc(all, i - 1);
      metadata := metadata + [Doc.AsDict(doc).fields];
    }
    assert all[..CHAPTERS] == all;
  }

  /** The narrator field of a record. */
  lemma RecordNarrator(i: int, timestamp: string)
    requires 1 <= i <= CHAPTERS
    ensures Get(Doc.AsDict(Record(i, timestamp)).fields, "narrator") == Some(JStr(Name(VOICES[(i - 1) % 3])))
  {
    NarratorEntry(Record(i, timestamp));
  }

  /** `as_dict` stores the narrator under "narrator". */
  lemma NarratorEntry(doc: Doc.StegoDoc)
    ensures Get(Doc.AsDict(doc).fields, "narrator") == Some(JStr(doc.narrator))
  {
    var d := Doc.AsDict(doc).fields;
    assert d[0].0 == "chapter" && d[1].0 == "narrator";
    GetAt(d, 1, "narrator");
  }

  /** In a strict rotation of the three voices, the prefix of length n holds
      voice j exactly (n + 2 - j) / 3 times. */
  lemma {:induction false} RotationCount(voices: seq<Json>, n: nat, j: nat)
    requires n <= |voices| && j < 3
    requires forall k :: 0 <= k < |voices| ==> voices[k] == JStr(Name(VOICES[k % 3]))
    ensures Validator.Count(voices[..n], JStr(Name(VOICES[j]))) == (n + 2 - j) / 3
  {
    if n > 0 {
      assert voices[..n][..n - 1] == voices[..n - 1];
      assert voices[..n][n - 1] == voices[n - 1];
      RotationCount(voices, n - 1, j);
      VoiceMatches(voices, n - 1, j);
      RotationStep(n, j);
    }
  }

  /** In a strict rotation, entry k is voice j exactly when k % 3 == j. */
  lemma VoiceMatches(voices: seq<Json>, k: nat, j: nat)
    requires k < |voices| && j < 3
    requires forall k :: 0 <= k < |voices| ==> voices[k] == JStr(Name(VOICES[k % 3]))
    ensures Validator.PyEq(voices[k], JStr(Name(VOICES[j]))) <==> k % 3 == j
  {
    Validator.PyEqStr(voices[k], Name(VOICES[j]));
    if k % 3 != j {
      NamesDistinct(k % 3, j);
    }
  }

  /** The three voices have three different names. */
  lemma NamesDistinct(a: nat, b: nat)
    requires a < 3 && b < 3 && a != b
    ensures Name(VOICES[a]) != Name(VOICES[b])
  {
  }

  /** Chapter n adds one to voice j's count exactly when j == (n - 1) % 3. */
  lemma RotationStep(n: nat, j: nat)
    requires 0 < n && j < 3
    ensures (n + 1 - j) / 3 + (if (n - 1) % 3 == j then 1 else 0) == (n + 2 - j) / 3
  {
  }

  /** The narrators of the generated metadata follow the rotation. */
  lemma MetadataVoices(now: int -> string)
    ensures var voices := Validator.Narrators(Metadata(now));
      forall k :: 0 <= k < |voices| ==> voices[k] == JStr(Name(VOICES[k % 3]))
  {
    var voices := Validator.Narrators(Metadata(now));
    forall k | 0 <= k < |voices|
      ensures voices[k] == JStr(Name(VOICES[k % 3]))
    {
      RecordNarrator(k + 1, now(k + 1));
    }
  }

  /** A strict rotation never repeats a narrator back to back. */
  lemma RotationNoRepeat(voices: seq<Json>)
    requires forall k :: 0 <= k < |voices| ==> voices[k] == JStr(Name(VOICES[k % 3]))
    ensures !Validator.AdjacentRepeat(voices)
  {
    forall i | 0 <= i < |voices| - 1
      ensures !Validator.PyEq(voices[i], voices[i + 1])
    {
      assert Name(VOICES[i % 3]) != Name(VOICES[(i + 1) % 3]);
      Validator.PyEqStr(voices[i], Name(VOICES[(i + 1) % 3]));
    }
  }

  /** Twenty chapters in strict rotation give the voices 7, 7 and 6 chapters. */
  lemma RotationCounts(voices: seq<Json>)
    requires |voices| == CHAPTERS
    requires forall k :: 0 <= k < |voices| ==> voices[k] == JStr(Name(VOICES[k % 3]))
    ensures Validator.Count(voices, JStr("Limnus")) == 7
    ensures Validator.Count(voices, JStr("Garden")) == 7
    ensures Validator.Count(voices, JStr("Kira")) == 6
  {
    assert voices[..|voices|] == voices;
    RotationCount(voices, 20, 0);
    RotationCount(voices, 20, 1);
    RotationCount(voices, 20, 2);
  }

  /** No voice falls below the minimum when each has at least six chapters. */
  lemma CountErrorsNone(voices: seq<Json>)
    requires Validator.Count(voices, JStr("Limnus")) >= Validator.MIN_COUNT
    requires Validator.Count(voices, JStr("Garden")) >= Validator.MIN_COUNT
    requires Validator.Count(voices, JStr("Kira")) >= Validator.MIN_COUNT
    ensures Validator.CountErrors(voices, Validator.NAMES) == []
  {
    var names := Validator.NAMES;
    assert names[0] == "Limnus" && names[1..][0] == "Garden" && names[1..][1..][0] == "Kira";
    assert names[1..][1..][1..] == [];
    assert Validator.CountErrors(voices, names[1..][1..]) == [];
    assert Validator.CountErrors(voices, names[1..]) == [];
  }

  /** Every narrator of the generated metadata is a string, so counting succeeds. */
  lemma MetadataHashable(now: int -> string)
    ensures var meta := Metadata(now);
      forall i :: 0 <= i < |meta| ==> Validator.Hashable(Validator.Narrator(meta[i]))
  {
    var meta := Metadata(now);
    forall i | 0 <= i < |meta|
      ensures Validator.Hashable(Validator.Narrator(meta[i]))
    {
      RecordNarrator(i + 1, now(i + 1));
    }
  }

  /** The generated metadata passes the rotation check: no back-to-back
      narrator, and the voices narrate 7, 7 and 6 chapters. */
  lemma GeneratedRotationClean(now: int -> string)
    ensures var voices := Validator.Narrators(Metadata(now));
      && Validator.Count(voices, JStr("Limnus")) == 7
      && Validator.Count(voices, JStr("Garden")) == 7
      && Validator.Count(voices, JStr("Kira")) == 6
    ensures Validator.Rotation(Validator.Objects(Metadata(now))) == Ok([])
  {
    var meta := Metadata(now);
    var voices := Validator.Narrators(meta);
    MetadataVoices(now);
    RotationNoRepeat(voices);
    RotationCounts(voices);
    CountErrorsNone(voices);
    MetadataHashable(now);
    assert Validator.RotationErrors(meta) == [];
  }
}
