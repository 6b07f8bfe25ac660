/** The chapter record carried inside a stego carrier (`StegoDoc`), and the
    coercions `from_dict` applies to a decoded JSON object. */
module Doc {
  import opened Common
  import opened Json
  import opened Text

  /** One chapter's metadata; `flags` keeps the insertion order of the dict. */
  datatype StegoDoc = StegoDoc(
    chapter: int,
    narrator: string,
    flags: Dict<string>,
    glyphs: seq<string>,
    file: string,
    summary: string,
    timestamp: string)

  /** The keys `from_dict` reads, in the order it reads them. */
  const FIELDS: seq<string> := ["chapter", "narrator", "flags", "glyphs", "file", "summary", "timestamp"]

  /** Why `from_dict` raises; each variant carries the key being read. */
  datatype DocError =
    | NotAnObject               // indexing a decoded value that is not a dict
    | MissingKey(key: string)   // KeyError
    | NotAnInt(key: string)     // int() raises
    | NotADict(key: string)     // dict() raises
    | NotIterable(key: string)  // iterating a number, a bool or None
    | OutOfModel(key: string)   // Python would go on here, with a value this model does not render

  /** Every character is an ASCII digit. */
  predicate AllDigits(d: string)
  {
    forall i :: 0 <= i < |d| ==> '0' <= d[i] <= '9'
  }

  /** Every character is an ASCII digit or an underscore. */
  predicate DigitsOrSeparators(t: string)
  {
    forall i :: 0 <= i < |t| ==> '0' <= t[i] <= '9' || t[i] == '_'
  }

  /** What `int` accepts after the sign: ASCII digits, where a single
      underscore may stand between two digits. */
  predicate Grouped(t: string)
  {
    && t != [] && t[0] != '_' && t[|t| - 1] != '_' && DigitsOrSeparators(t)
    && forall i :: 0 <= i < |t| ==> !DoubleSeparator(t, i)
  }

  /** Two underscores in a row at position i. */
  predicate DoubleSeparator(t: string, i: int)
  {
    0 <= i < |t| - 1 && t[i] == '_' && t[i + 1] == '_'
  }

  /** The value of the digits, skipping the underscores. */
  function GroupedValue(t: string): nat
    requires DigitsOrSeparators(t)
  {
    if |t| == 0 then 0
    else if t[|t| - 1] == '_' then GroupedValue(t[..|t| - 1])
    else 10 * GroupedValue(t[..|t| - 1]) + (t[|t| - 1] as int - '0' as int)
  }

  /** `int` of text with no surrounding whitespace: an optional sign, then
      digits grouped by single underscores. */
  function ParseSigned(t: string): Option<int>
  {
    var neg := |t| > 0 && t[0] == '-';
    var digits := if |t| > 0 && (t[0] == '-' || t[0] == '+') then t[1..] else t;
    if Grouped(digits) then
      var v: int := GroupedValue(digits);
      Some(if neg then -v else v)
    else None
  }

  /** `int(s)` for a string: optional surrounding whitespace, an optional sign,
      ASCII digits grouped by single underscores. */
  function ParseInt(s: string): Option<int>
  {
    ParseSigned(Strip(s))
  }

  /** The characters of `str(i)` are all digits after an optional minus sign. */
  lemma DecimalShape(i: int)
    ensures i < 0 ==> Decimal(i) == "-" + NatDecimal(-i)
    ensures i >= 0 ==> Decimal(i) == NatDecimal(i)
    ensures Strip(Decimal(i)) == Decimal(i)
  {
    var s := Decimal(i);
    var digits := NatDecimal(if i < 0 then -i else i);
    assert s[|s| - 1] == digits[|digits| - 1];
    StripUntouched(s);
  }

  /** `int` of an unsigned run of digits. */
  lemma ParseUnsigned(d: string)
    requires d != [] && AllDigits(d)
    ensures ParseSigned(d) == Some(DigitsValue(d))
  {
    DigitsGrouped(d);
  }

  /** `int` of a minus sign followed by a run of digits. */
  lemma ParseNegative(d: string)
    requires d != [] && AllDigits(d)
    ensures ParseSigned("-" + d) == Some(-(DigitsValue(d) as int))
  {
    var t := "-" + d;
    assert t[0] == '-' && t[1..] == d;
    DigitsGrouped(d);
  }

  /** A plain run of digits is grouped, and its value is the usual one. */
  lemma {:induction false} DigitsGrouped(d: string)
    requires AllDigits(d)
    ensures d != [] ==> Grouped(d)
    ensures DigitsOrSeparators(d) && GroupedValue(d) == DigitsValue(d)
  {
    if d != [] {
      DigitsGrouped(d[..|d| - 1]);
    }
  }

  /** Text starting with a digit has no sign for `int` to read. */
  lemma ParseNoSign(t: string)
    requires t != [] && '0' <= t[0] <= '9'
    ensures Grouped(t) ==> ParseSigned(t) == Some(GroupedValue(t) as int)
    ensures !Grouped(t) ==> ParseSigned(t) == None
  {
  }

  /** Joining with one underscore: the value is that of the digits run together. */
  lemma {:induction false} JoinValue(a: string, b: string)
    requires AllDigits(a) && AllDigits(b)
    ensures DigitsOrSeparators(a + "_" + b) && AllDigits(a + b)
    ensures GroupedValue(a + "_" + b) == DigitsValue(a + b)
  {
    var t := a + "_" + b;
    assert DigitsOrSeparators(t) by {
      forall i | 0 <= i < |t|
        ensures '0' <= t[i] <= '9' || t[i] == '_'
      {
        if i < |a| {
          assert t[i] == a[i];
        } else if i > |a| {
          assert t[i] == b[i - |a| - 1];
        }
      }
    }
    assert AllDigits(a + b) by {
      forall i | 0 <= i < |a + b|
        ensures '0' <= (a + b)[i] <= '9'
      {
        if i >= |a| {
          assert (a + b)[i] == b[i - |a|];
        }
      }
    }
    if b == [] {
      assert t[..|t| - 1] == a && a + b == a;
      DigitsGrouped(a);
    } else {
      var b' := b[..|b| - 1];
      assert t[..|t| - 1] == a + "_" + b';
      assert (a + b)[..|a + b| - 1] == a + b';
      JoinValue(a, b');
    }
  }

  /** Two runs of digits joined by one underscore are grouped. */
  lemma JoinGrouped(a: string, b: string)
    requires a != [] && AllDigits(a) && b != [] && AllDigits(b)
    ensures Grouped(a + "_" + b)
  {
    var t := a + "_" + b;
    JoinValue(a, b);
    forall i | 0 <= i < |t|
      ensures !DoubleSeparator(t, i)
    {
      if 0 <= i < |a| {
        assert t[i] == a[i];
      } else if |a| <= i < |t| - 1 {
        assert t[i + 1] == b[i - |a|];
      }
    }
  }

  /** An underscore between two runs of digits does not change the value,
      and two underscores in a row, or one at either end, are refused. */
  lemma UnderscoreIgnored(a: string, b: string)
    requires a != [] && AllDigits(a) && b != [] && AllDigits(b)
    ensures ParseSigned(a + "_" + b) == ParseSigned(a + b) == Some(DigitsValue(a + b) as int)
    ensures ParseSigned(a + "__" + b) == None
    ensures ParseSigned("_" + a) == None && ParseSigned(a + "_") == None
  {
    var t := a + "_" + b;
    assert t[0] == a[0];
    JoinGrouped(a, b);
    JoinValue(a, b);
    ParseNoSign(t);
    assert (a + b)[0] == a[0];
    DigitsGrouped(a + b);
    ParseNoSign(a + b);
    var u := a + "__" + b;
    assert u[0] == a[0] && DoubleSeparator(u, |a|);
    ParseNoSign(u);
    var v := "_" + a;
    assert v[0] == '_';
    var w := a + "_";
    assert w[0] == a[0] && w[|w| - 1] == '_';
    ParseNoSign(w);
  }

  /** `int("1_000") == 1000`, as Python reads it, while `int("1__000")` raises. */
  lemma ParseThousand()
    ensures ParseInt("1_000") == Some(1000)
    ensures ParseInt("1__000") == None
  {
    SignedThousand();
    var t, u := "1_000", "1__000";
    assert t[0] == u[0] == '1' && t[|t| - 1] == u[|u| - 1] == '0';
    ParseUnpadded(t);
    ParseUnpadded(u);
  }

  /** Text with no whitespace at either end is parsed as it stands. */
  lemma ParseUnpadded(s: string)
    requires s != [] && !IsSpace(s[0]) && !IsSpace(s[|s| - 1])
    ensures ParseInt(s) == ParseSigned(s)
  {
    StripUntouched(s);
  }

  /** The same two texts, with no whitespace to strip. */
  lemma SignedThousand()
    ensures ParseSigned("1_000") == Some(1000)
    ensures ParseSigned("1__000") == None
  {
    GroupedThousand();
    DoubledThousand();
  }

  /** One underscore after the leading digit is skipped. */
  lemma GroupedThousand()
    ensures ParseSigned("1_000") == Some(1000)
  {
    var one, zeros := "1", "000";
    assert AllDigits(zeros);
    var t := one + "_" + zeros;
    JoinGrouped(one, zeros);
    JoinValue(one, zeros);
    Thousand();
    assert one + zeros == "1000";
    assert t[0] == '1';
    ParseNoSign(t);
    assert t == "1_000";
  }

  /** Two underscores in a row are refused. */
  lemma DoubledThousand()
    ensures ParseSigned("1__000") == None
  {
    var u := "1__000";
    assert u[0] == '1' && DoubleSeparator(u, 1);
    ParseNoSign(u);
  }

  /** The digits of one thousand. */
  lemma Thousand()
    ensures DigitsValue("1000") == 1000
  {
    assert "1000"[..3] == "100" && "100"[..2] == "10" && "10"[..1] == "1" && "1"[..0] == "";
  }

  /** `str(n)` is a non-empty run of digits. */
  lemma NatDecimalDigits(n: nat)
    ensures NatDecimal(n) != [] && AllDigits(NatDecimal(n))
  {
  }

  /** `int(str(i)) == i`. */
  lemma ParseIntDecimal(i: int)
    ensures ParseInt(Decimal(i)) == Some(i)
  {
    DecimalShape(i);
    var n: nat := if i < 0 then -i else i;
    var d := NatDecimal(n);
    DigitsValueOfNatDecimal(n);
    NatDecimalDigits(n);
    if i < 0 {
      ParseNegative(d);
    } else {
      ParseUnsigned(d);
    }
  }

  /** `int(j)` for the value read under key. */
  function IntOf(j: Json, key: string): (r: Result<int, DocError>)
    ensures j.JInt? ==> r == Ok(j.n)
    ensures r.Err? ==> r.error == NotAnInt(key)
  {
    match j
    case JInt(n) => Ok(n)
    case JBool(b) => Ok(if b then 1 else 0)
    case JStr(s) => if ParseInt(s).Some? then Ok(ParseInt(s).value) else Err(NotAnInt(key))
    case _ => Err(NotAnInt(key))
  }

  /** `str(j)` for the value read under key; a list or dict would give its repr. */
  function StrOf(j: Json, key: string): (r: Result<string, DocError>)
    ensures j.JStr? ==> r == Ok(j.s)
    ensures r.Err? <==> j.JArr? || j.JObj?
  {
    match j
    case JStr(s) => Ok(s)
    case JInt(n) => Ok(Decimal(n))
    case JBool(b) => Ok(if b then "True" else "False")
    case JNull => Ok("None")
    case _ => Err(OutOfModel(key))
  }

  /** `str(x)` for each x, in order; the first failure wins. */
  function StrAll(items: seq<Json>, key: string): (r: Result<seq<string>, DocError>)
    ensures r.Err? ==> !r.error.MissingKey?
    ensures r.Ok? ==> |r.value| == |items|
  {
    if |items| == 0 then Ok([])
    else
      var init :- StrAll(items[..|items| - 1], key);
      var last :- StrOf(items[|items| - 1], key);
      Ok(init + [last])
  }

  /** `{k: str(v) for k, v in d.items()}`. */
  function StrValues(d: Dict<Json>, key: string): (r: Result<Dict<string>, DocError>)
    ensures r.Err? ==> !r.error.MissingKey?
    ensures r.Ok? ==> Keys(r.value) == Keys(d)
  {
    if |d| == 0 then Ok([])
    else
      var init :- StrValues(d[..|d| - 1], key);
      var last :- StrOf(d[|d| - 1].1, key);
      assert Keys(init + [(d[|d| - 1].0, last)]) == Keys(d[..|d| - 1]) + [d[|d| - 1].0];
      assert Keys(d) == Keys(d[..|d| - 1]) + [d[|d| - 1].0];
      Ok(init + [(d[|d| - 1].0, last)])
  }

  /** One element of `dict(list)`: it must iterate to exactly two items. */
  function PairOf(e: Json, key: string): (r: Result<(string, Json), DocError>)
    ensures r.Err? ==> r.error in {NotADict(key), OutOfModel(key)}
  {
    match e
    case JArr(xs) =>
      if |xs| != 2 then Err(NotADict(key))
      else if xs[0].JStr? then Ok((xs[0].s, xs[1]))
      else if xs[0].JArr? || xs[0].JObj? then Err(NotADict(key))
      else Err(OutOfModel(key))
    case JStr(s) => if |s| != 2 then Err(NotADict(key)) else Ok(([s[0]], JStr([s[1]])))
    case JObj(f) => if |f| != 2 then Err(NotADict(key)) else Ok((f[0].0, JStr(f[1].0)))
    case _ => Err(NotADict(key))
  }

  /** `dict(items)` for a list: each pair is stored in turn, a later key overwriting an earlier one. */
  function DictOfPairs(items: seq<Json>, key: string): (r: Result<Dict<Json>, DocError>)
    ensures r.Err? ==> !r.error.MissingKey?
    ensures r.Ok? ==> DistinctKeys(r.value)
  {
    if |items| == 0 then Ok([])
    else
      var init :- DictOfPairs(items[..|items| - 1], key);
      var pair :- PairOf(items[|items| - 1], key);
      PutDistinct(init, pair.0, pair.1);
      Ok(Put(init, pair.0, pair.1))
  }

  /** `dict(j)`. */
  function DictOf(j: Json, key: string): (r: Result<Dict<Json>, DocError>)
    ensures r.Err? ==> !r.error.MissingKey?
    ensures j.JObj? ==> r == Ok(j.fields)
  {
    match j
    case JObj(f) => Ok(f)
    case JArr(xs) => DictOfPairs(xs, key)
    case JStr(s) => if s == [] then Ok([]) else Err(NotADict(key))
    case _ => Err(NotADict(key))
  }

  /** `tuple(str(g) for g in j)`: a list's items, a string's characters, a dict's keys. */
  function StrsOf(j: Json, key: string): (r: Result<seq<string>, DocError>)
    ensures r.Err? ==> !r.error.MissingKey?
  {
    match j
    case JArr(xs) => StrAll(xs, key)
    case JStr(s) => Ok(Chars(s))
    case JObj(f) => Ok(Keys(f))
    case _ => Err(NotIterable(key))
  }

  /** `data[key]`. */
  function Field(d: Dict<Json>, key: string): (r: Result<Json, DocError>)
    ensures r.Ok? <==> HasKey(d, key)
    ensures r.Err? ==> r.error == MissingKey(key)
  {
    match Get(d, key)
    case None => Err(MissingKey(key))
    case Some(v) => Ok(v)
  }

  /** A key `from_dict` reads is missing exactly when its lookup fails that way. */
  predicate ReadsKey<T>(d: Dict<Json>, key: string, r: Result<T, DocError>)
  {
    && (r.Ok? ==> HasKey(d, key))
    && (r.Err? && r.error.MissingKey? ==> r.error.key == key && !HasKey(d, key))
  }

  /** `int(data[key])`. */
  function IntField(d: Dict<Json>, key: string): (r: Result<int, DocError>)
    ensures ReadsKey(d, key, r)
  {
    var v :- Field(d, key);
    IntOf(v, key)
  }

  /** `str(data[key])`. */
  function StrField(d: Dict<Json>, key: string): (r: Result<string, DocError>)
    ensures ReadsKey(d, key, r)
  {
    var v :- Field(d, key);
    StrOf(v, key)
  }

  /** `{k: str(v) for k, v in dict(data[key]).items()}`. */
  function StrDictField(d: Dict<Json>, key: string): (r: Result<Dict<string>, DocError>)
    ensures ReadsKey(d, key, r)
  {
    var v :- Field(d, key);
    var raw :- DictOf(v, key);
    StrValues(raw, key)
  }

  /** `tuple(str(g) for g in data[key])`. */
  function StrsField(d: Dict<Json>, key: string): (r: Result<seq<string>, DocError>)
    ensures ReadsKey(d, key, r)
  {
    var v :- Field(d, key);
    StrsOf(v, key)
  }

  /** `StegoDoc.from_dict`: read the seven keys in order, coercing each. */
  function FromDict(data: Json): (r: Result<StegoDoc, DocError>)
    ensures r.Ok? ==> data.JObj? && forall k :: k in FIELDS ==> HasKey(data.fields, k)
    ensures r.Err? && r.error.MissingKey? ==>
      data.JObj? && r.error.key in FIELDS && !HasKey(data.fields, r.error.key)
  {
    if !data.JObj? then Err(NotAnObject)
    else
      var d := data.fields;
      var chapter :- IntField(d, "chapter");
      var narrator :- StrField(d, "narrator");
      var flags :- StrDictField(d, "flags");
      var glyphs :- StrsField(d, "glyphs");
      var file :- StrField(d, "file");
      var summary :- StrField(d, "summary");
      var timestamp :- StrField(d, "timestamp");
      Ok(StegoDoc(chapter, narrator, flags, glyphs, file, summary, timestamp))
  }

  /** A dict of strings as a JSON object. */
  function StrDict(d: Dict<string>): (r: Dict<Json>)
    ensures Keys(r) == Keys(d)
  {
    seq(|d|, i requires 0 <= i < |d| => (d[i].0, JStr(d[i].1)))
  }

  /** A list of strings as a JSON array. */
  function StrList(xs: seq<string>): (r: seq<Json>)
    ensures |r| == |xs| && forall i :: 0 <= i < |xs| ==> r[i] == JStr(xs[i])
  {
    seq(|xs|, i requires 0 <= i < |xs| => JStr(xs[i]))
  }

  /** `StegoDoc.as_dict`. */
  function AsDict(doc: StegoDoc): (r: Json)
    ensures r.JObj? && Keys(r.fields) == FIELDS
  {
    JObj([
      ("chapter", JInt(doc.chapter)),
      ("narrator", JStr(doc.narrator)),
      ("flags", JObj(StrDict(doc.flags))),
      ("glyphs", JArr(StrList(doc.glyphs))),
      ("file", JStr(doc.file)),
      ("summary", JStr(doc.summary)),
      ("timestamp", JStr(doc.timestamp))])
  }

  lemma {:induction false} StrAllOfStrings(xs: seq<string>, key: string)
    ensures StrAll(StrList(xs), key) == Ok(xs)
  {
    if |xs| > 0 {
      var n := |xs|;
      assert StrList(xs)[..n - 1] == StrList(xs[..n - 1]);
      StrAllOfStrings(xs[..n - 1], key);
      assert xs[..n - 1] + [xs[n - 1]] == xs;
    }
  }

  lemma {:induction false} StrValuesOfStrDict(d: Dict<string>, key: string)
    ensures StrValues(StrDict(d), key) == Ok(d)
  {
    if |d| > 0 {
      var n := |d|;
      assert StrDict(d)[..n - 1] == StrDict(d[..n - 1]);
      StrValuesOfStrDict(d[..n - 1], key);
      assert d[..n - 1] + [d[n - 1]] == d;
    }
  }

  /** Looking a key up in a dict laid out as `as_dict` lays it out. */
  lemma RecordGet(c: Json, n: Json, fl: Json, g: Json, f: Json, s: Json, t: Json, k: string)
    ensures Get([("chapter", c), ("narrator", n), ("flags", fl), ("glyphs", g),
                 ("file", f), ("summary", s), ("timestamp", t)], k) ==
      if k == "chapter" then Some(c) else if k == "narrator" then Some(n)
      else if k == "flags" then Some(fl) else if k == "glyphs" then Some(g)
      else if k == "file" then Some(f) else if k == "summary" then Some(s)
      else if k == "timestamp" then Some(t) else None
  {
    var d7 := [("timestamp", t)];
    var d6 := [("summary", s)] + d7;
    var d5 := [("file", f)] + d6;
    var d4 := [("glyphs", g)] + d5;
    var d3 := [("flags", fl)] + d4;
    var d2 := [("narrator", n)] + d3;
    var d1 := [("chapter", c)] + d2;
    assert d1 == [("chapter", c), ("narrator", n), ("flags", fl), ("glyphs", g),
                  ("file", f), ("summary", s), ("timestamp", t)];
    GetCons(("timestamp", t), [], k);
    GetCons(("summary", s), d7, k);
    GetCons(("file", f), d6, k);
    GetCons(("glyphs", g), d5, k);
    GetCons(("flags", fl), d4, k);
    GetCons(("narrator", n), d3, k);
    GetCons(("chapter", c), d2, k);
  }

  /** Each field of a dict laid out as `as_dict` lays it out is found under its own key. */
  lemma FieldsOfRecord(d: Dict<Json>, c: Json, n: Json, fl: Json, g: Json, f: Json, s: Json, t: Json)
    requires d == [("chapter", c), ("narrator", n), ("flags", fl), ("glyphs", g),
                   ("file", f), ("summary", s), ("timestamp", t)]
    ensures Field(d, "chapter") == Ok(c) && Field(d, "narrator") == Ok(n)
    ensures Field(d, "flags") == Ok(fl) && Field(d, "glyphs") == Ok(g)
    ensures Field(d, "file") == Ok(f) && Field(d, "summary") == Ok(s)
    ensures Field(d, "timestamp") == Ok(t)
  {
    RecordGet(c, n, fl, g, f, s, t, "chapter");
    RecordGet(c, n, fl, g, f, s, t, "narrator");
    RecordGet(c, n, fl, g, f, s, t, "flags");
    RecordGet(c, n, fl, g, f, s, t, "glyphs");
    RecordGet(c, n, fl, g, f, s, t, "file");
    RecordGet(c, n, fl, g, f, s, t, "summary");
    RecordGet(c, n, fl, g, f, s, t, "timestamp");
  }

  /** Decoding the dict of a record gives the record back. */
  lemma FromDictAsDict(doc: StegoDoc)
    ensures FromDict(AsDict(doc)) == Ok(doc)
  {
    var d := AsDict(doc).fields;
    FieldsOfRecord(d, JInt(doc.chapter), JStr(doc.narrator), JObj(StrDict(doc.flags)),
      JArr(StrList(doc.glyphs)), JStr(doc.file), JStr(doc.summary), JStr(doc.timestamp));
    assert IntField(d, "chapter") == Ok(doc.chapter);
    assert StrField(d, "narrator") == Ok(doc.narrator);
    assert StrDictField(d, "flags") == Ok(doc.flags) by {
      StrValuesOfStrDict(doc.flags, "flags");
    }
    assert StrsField(d, "glyphs") == Ok(doc.glyphs) by {
      StrAllOfStrings(doc.glyphs, "glyphs");
    }
    assert StrField(d, "file") == Ok(doc.file);
    assert StrField(d, "summary") == Ok(doc.summary);
    assert StrField(d, "timestamp") == Ok(doc.timestamp);
  }

  /** Python's `==` on records: a dataclass compares its fields, and two
      dicts are equal whatever the order of their keys. */
  ghost predicate SameRecord(a: StegoDoc, b: StegoDoc)
  {
    && a.chapter == b.chapter && a.narrator == b.narrator && SameLookups(a.flags, b.flags)
    && a.glyphs == b.glyphs && a.file == b.file && a.summary == b.summary && a.timestamp == b.timestamp
  }

  /** Looking a key up in a dict of strings turned into JSON. */
  lemma {:induction false} GetStrDict(d: Dict<string>, k: string)
    ensures Get(StrDict(d), k) == if Get(d, k).Some? then Some(JStr(Get(d, k).value)) else None
  {
    if |d| > 0 {
      assert StrDict(d)[1..] == StrDict(d[1..]);
      GetStrDict(d[1..], k);
    }
  }

  /** Two dicts with the same keys, in order, hold the same keys. */
  lemma HasKeyOfKeys<V, W>(a: Dict<V>, b: Dict<W>, k: string)
    requires Keys(a) == Keys(b)
    ensures HasKey(a, k) <==> HasKey(b, k)
  {
    if HasKey(a, k) {
      var i :| 0 <= i < |a| && a[i].0 == k;
      assert Keys(a)[i] == k && Keys(b)[i] == b[i].0;
    }
    if HasKey(b, k) {
      var i :| 0 <= i < |b| && b[i].0 == k;
      assert Keys(b)[i] == k && Keys(a)[i] == a[i].0;
    }
  }

  /** `{k: str(v)}` over a dict whose values are all strings succeeds, and
      every key looks up the string stored under it. */
  lemma {:induction false} StrValuesOfStrings(f: Dict<Json>, key: string)
    requires forall i :: 0 <= i < |f| ==> f[i].1.JStr?
    ensures StrValues(f, key).Ok?
    ensures forall k :: Get(StrValues(f, key).value, k).Some? <==> Get(f, k).Some?
    ensures forall k :: Get(f, k).Some? ==> Get(f, k).value == JStr(Get(StrValues(f, key).value, k).value)
  {
    if |f| > 0 {
      var n := |f|;
      var init := f[..n - 1];
      StrValuesOfStrings(init, key);
      var r0 := StrValues(init, key).value;
      var e := (f[n - 1].0, f[n - 1].1.s);
      assert StrValues(f, key) == Ok(r0 + [e]);
      assert init + [f[n - 1]] == f;
      forall k
        ensures Get(r0 + [e], k).Some? <==> Get(f, k).Some?
        ensures Get(f, k).Some? ==> Get(f, k).value == JStr(Get(r0 + [e], k).value)
      {
        GetSnoc(r0, e, k);
        GetSnoc(init, f[n - 1], k);
        HasKeyOfKeys(r0, init, k);
      }
    }
  }

  /** The flags of a decoded record: a dict with the lookups of the record's
      flags, whatever its key order, reads back as a dict with those lookups. */
  lemma FlagsReordered(v: Json, flags: Dict<string>)
    requires SameUpToOrder(v, JObj(StrDict(flags)))
    requires v.JObj? && DistinctKeys(v.fields)
    ensures StrValues(v.fields, "flags").Ok?
    ensures SameLookups(StrValues(v.fields, "flags").value, flags)
  {
    var f := v.fields;
    assert SameLookups(f, StrDict(flags));
    forall i | 0 <= i < |f|
      ensures f[i].1.JStr?
    {
      GetEntry(f, i);
      GetStrDict(flags, f[i].0);
    }
    StrValuesOfStrings(f, "flags");
    var res := StrValues(f, "flags").value;
    forall k
      ensures Get(res, k) == Get(flags, k)
    {
      GetStrDict(flags, k);
      assert Get(f, k) == Get(StrDict(flags), k);
    }
  }

  /** In a reordering, a key whose value is not a dict looks up the same value. */
  lemma ReorderedScalar(j: Json, m: Json, k: string, x: Json)
    requires Reordered(j, m) && Get(m.fields, k) == Some(x) && !x.JObj?
    ensures Get(j.fields, k) == Some(x)
  {
  }

  /** `from_dict` of any reordering of a record's dict, with the flags
      possibly reordered too, is a record equal to it. */
  lemma FromDictReordered(doc: StegoDoc, j: Json)
    requires Reordered(j, AsDict(doc))
    ensures FromDict(j).Ok? && SameRecord(FromDict(j).value, doc)
  {
    var d := j.fields;
    ReorderedScalars(doc, j);
    ReorderedFlags(doc, j);
    var flags := StrDictField(d, "flags").value;
    assert IntField(d, "chapter") == Ok(doc.chapter);
    assert StrField(d, "narrator") == Ok(doc.narrator);
    assert StrsField(d, "glyphs") == Ok(doc.glyphs) by {
      StrAllOfStrings(doc.glyphs, "glyphs");
    }
    assert StrField(d, "file") == Ok(doc.file);
    assert StrField(d, "summary") == Ok(doc.summary);
    assert StrField(d, "timestamp") == Ok(doc.timestamp);
    assert FromDict(j) == Ok(StegoDoc(doc.chapter, doc.narrator, flags, doc.glyphs, doc.file, doc.summary, doc.timestamp));
  }

  /** In a reordering of a record's dict, the fields other than the flags
      look up their values unchanged. */
  lemma ReorderedScalars(doc: StegoDoc, j: Json)
    requires Reordered(j, AsDict(doc))
    ensures Get(j.fields, "chapter") == Some(JInt(doc.chapter))
    ensures Get(j.fields, "narrator") == Some(JStr(doc.narrator))
    ensures Get(j.fields, "glyphs") == Some(JArr(StrList(doc.glyphs)))
    ensures Get(j.fields, "file") == Some(JStr(doc.file))
    ensures Get(j.fields, "summary") == Some(JStr(doc.summary))
    ensures Get(j.fields, "timestamp") == Some(JStr(doc.timestamp))
  {
    var m := AsDict(doc);
    var fl := JObj(StrDict(doc.flags));
    FieldsOfRecord(m.fields, JInt(doc.chapter), JStr(doc.narrator), fl, JArr(StrList(doc.glyphs)),
      JStr(doc.file), JStr(doc.summary), JStr(doc.timestamp));
    ReorderedScalar(j, m, "chapter", JInt(doc.chapter));
    ReorderedScalar(j, m, "narrator", JStr(doc.narrator));
    ReorderedScalar(j, m, "glyphs", JArr(StrList(doc.glyphs)));
    ReorderedScalar(j, m, "file", JStr(doc.file));
    ReorderedScalar(j, m, "summary", JStr(doc.summary));
    ReorderedScalar(j, m, "timestamp", JStr(doc.timestamp));
  }

  /** In a reordering of a record's dict, the flags read back with the
      record's lookups. */
  lemma ReorderedFlags(doc: StegoDoc, j: Json)
    requires Reordered(j, AsDict(doc))
    ensures StrDictField(j.fields, "flags").Ok?
    ensures SameLookups(StrDictField(j.fields, "flags").value, doc.flags)
  {
    var d := j.fields;
    var m := AsDict(doc);
    var fl := JObj(StrDict(doc.flags));
    RecordGet(JInt(doc.chapter), JStr(doc.narrator), fl, JArr(StrList(doc.glyphs)),
      JStr(doc.file), JStr(doc.summary), JStr(doc.timestamp), "flags");
    assert Get(m.fields, "flags") == Some(fl);
    var v := Get(d, "flags").value;
    assert SameUpToOrder(v, fl);
    if v == fl {
      StrValuesOfStrDict(doc.flags, "flags");
    } else {
      ProperField(d, "flags");
      FlagsReordered(v, doc.flags);
    }
  }

  /** A record's dict laid out as `json.dumps(..., sort_keys=True)` writes
      it when its flags are keyed R, G and B: keys in code-point order, at
      both levels. */
  function SortedRecord(doc: StegoDoc, r: string, g: string, b: string): (j: Json)
    ensures j.JObj? && StrictlySorted(Keys(j.fields))
  {
    var j := JObj([
      ("chapter", JInt(doc.chapter)),
      ("file", JStr(doc.file)),
      ("flags", JObj([("B", JStr(b)), ("G", JStr(g)), ("R", JStr(r))])),
      ("glyphs", JArr(StrList(doc.glyphs))),
      ("narrator", JStr(doc.narrator)),
      ("summary", JStr(doc.summary)),
      ("timestamp", JStr(doc.timestamp))]);
    assert Keys(j.fields) == ["chapter", "file", "flags", "glyphs", "narrator", "summary", "timestamp"];
    j
  }

  /** The flags hold exactly the keys R, G and B, with the values r, g and b,
      in whatever order. */
  ghost predicate RGBFlags(flags: Dict<string>, r: string, g: string, b: string)
  {
    && Get(flags, "R") == Some(r) && Get(flags, "G") == Some(g) && Get(flags, "B") == Some(b)
    && forall k :: HasKey(flags, k) ==> k == "R" || k == "G" || k == "B"
  }

  /** The sorted layout is a reordering of the record's dict, so it meets the
      premise of FromDictReordered, although it differs from `as_dict`'s order. */
  lemma SortedRecordReordered(doc: StegoDoc, r: string, g: string, b: string)
    requires RGBFlags(doc.flags, r, g, b)
    ensures Reordered(SortedRecord(doc, r, g, b), AsDict(doc))
    ensures SortedRecord(doc, r, g, b) != AsDict(doc)
  {
    var j := SortedRecord(doc, r, g, b);
    var m := AsDict(doc);
    var fl := [("B", JStr(b)), ("G", JStr(g)), ("R", JStr(r))];
    assert j.fields[1].0 != m.fields[1].0;
    SortedProper(doc, r, g, b);
    FlagsSwapped(doc.flags, r, g, b);
    forall k
      ensures Get(j.fields, k).None? <==> Get(m.fields, k).None?
      ensures Get(j.fields, k).Some? ==> SameUpToOrder(Get(j.fields, k).value, Get(m.fields, k).value)
    {
      SortedGet(doc, JObj(fl), k);
      RecordGet(JInt(doc.chapter), JStr(doc.narrator), JObj(StrDict(doc.flags)), JArr(StrList(doc.glyphs)),
        JStr(doc.file), JStr(doc.summary), JStr(doc.timestamp), k);
    }
  }

  /** The sorted layout has no repeated key, at either level. */
  lemma SortedProper(doc: StegoDoc, r: string, g: string, b: string)
    ensures Proper(SortedRecord(doc, r, g, b))
  {
    var j := SortedRecord(doc, r, g, b);
    var gl := StrList(doc.glyphs);
    assert Proper(JArr(gl)) by {
      assert forall i :: 0 <= i < |gl| ==> gl[i].JStr?;
    }
    assert Proper(JObj([("B", JStr(b)), ("G", JStr(g)), ("R", JStr(r))]));
    assert forall i :: 0 <= i < |j.fields| ==> Proper(j.fields[i].1);
  }

  /** The flags written B, G, R look up as any flags keyed R, G and B. */
  lemma FlagsSwapped(flags: Dict<string>, r: string, g: string, b: string)
    requires RGBFlags(flags, r, g, b)
    ensures SameLookups([("B", JStr(b)), ("G", JStr(g)), ("R", JStr(r))], StrDict(flags))
  {
    var fl := [("B", JStr(b)), ("G", JStr(g)), ("R", JStr(r))];
    forall k
      ensures Get(fl, k) == Get(StrDict(flags), k)
    {
      GetStrDict(flags, k);
      SwappedGet(r, g, b, k);
      if k != "R" && k != "G" && k != "B" {
        assert !HasKey(flags, k);
      }
    }
  }

  /** Looking a key up in the flags written B, G, R. */
  lemma SwappedGet(r: string, g: string, b: string, k: string)
    ensures Get([("B", JStr(b)), ("G", JStr(g)), ("R", JStr(r))], k) ==
      if k == "B" then Some(JStr(b)) else if k == "G" then Some(JStr(g))
      else if k == "R" then Some(JStr(r)) else None
  {
    var f3 := [("R", JStr(r))];
    var f2 := [("G", JStr(g))] + f3;
    GetCons(("R", JStr(r)), [], k);
    GetCons(("G", JStr(g)), f3, k);
    GetCons(("B", JStr(b)), f2, k);
    assert [("R", JStr(r))] + [] == f3;
    assert [("B", JStr(b))] + f2 == [("B", JStr(b)), ("G", JStr(g)), ("R", JStr(r))];
  }

  /** Looking a key up in the sorted layout. */
  lemma SortedGet(doc: StegoDoc, fl: Json, k: string)
    ensures Get([("chapter", JInt(doc.chapter)), ("file", JStr(doc.file)), ("flags", fl),
                 ("glyphs", JArr(StrList(doc.glyphs))), ("narrator", JStr(doc.narrator)),
                 ("summary", JStr(doc.summary)), ("timestamp", JStr(doc.timestamp))], k) ==
      if k == "chapter" then Some(JInt(doc.chapter)) else if k == "file" then Some(JStr(doc.file))
      else if k == "flags" then Some(fl) else if k == "glyphs" then Some(JArr(StrList(doc.glyphs)))
      else if k == "narrator" then Some(JStr(doc.narrator)) else if k == "summary" then Some(JStr(doc.summary))
      else if k == "timestamp" then Some(JStr(doc.timestamp)) else None
  {
    var d7 := [("timestamp", JStr(doc.timestamp))];
    var d6 := [("summary", JStr(doc.summary))] + d7;
    var d5 := [("narrator", JStr(doc.narrator))] + d6;
    var d4 := [("glyphs", JArr(StrList(doc.glyphs)))] + d5;
    var d3 := [("flags", fl)] + d4;
    var d2 := [("file", JStr(doc.file))] + d3;
    var d1 := [("chapter", JInt(doc.chapter))] + d2;
    GetCons(("timestamp", JStr(doc.timestamp)), [], k);
    GetCons(("summary", JStr(doc.summary)), d7, k);
    GetCons(("narrator", JStr(doc.narrator)), d6, k);
    GetCons(("glyphs", JArr(StrList(doc.glyphs))), d5, k);
    GetCons(("flags", fl), d4, k);
    GetCons(("file", JStr(doc.file)), d3, k);
    GetCons(("chapter", JInt(doc.chapter)), d2, k);
    assert d1 == [("chapter", JInt(doc.chapter)), ("file", JStr(doc.file)), ("flags", fl),
                  ("glyphs", JArr(StrList(doc.glyphs))), ("narrator", JStr(doc.narrator)),
                  ("summary", JStr(doc.summary)), ("timestamp", JStr(doc.timestamp))];
  }
}
