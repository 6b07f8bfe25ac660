/** The metadata validator: the narrator rotation rule, the parser for the
    flags line of a chapter page, and the shape check of the metadata
    against the chapter schema. */
module Validator {
  import opened Common
  import opened Json
  import opened Text

  // ---------------------------------------------------------------------
  // Narrator rotation

  /** The voices whose appearances are counted, in the order they are reported. */
  const NAMES: seq<string> := ["Limnus", "Garden", "Kira"]

  /** Each voice must narrate at least this many chapters. */
  const MIN_COUNT: nat := 6

  datatype RotationError =
    | Repetition                        // two consecutive chapters share a narrator
    | TooFew(name: string, count: nat)  // a voice narrates fewer than MIN_COUNT chapters

  /** `ch.get("narrator")`: the stored value, or None (JSON null) when the
      key is absent, so an absent narrator and a null one are the same value. */
  function Narrator(ch: Dict<Json>): (v: Json)
    ensures Get(ch, "narrator").Some? ==> v == Get(ch, "narrator").value
    ensures Get(ch, "narrator").None? ==> v == JNull
  {
    match Get(ch, "narrator")
    case Some(v) => v
    case None => JNull
  }

  /** `[ch.get("narrator") for ch in chapters]`. */
  function Narrators(chapters: seq<Dict<Json>>): (r: seq<Json>)
    ensures |r| == |chapters|
    ensures forall i :: 0 <= i < |chapters| ==> r[i] == Narrator(chapters[i])
  {
    seq(|chapters|, i requires 0 <= i < |chapters| => Narrator(chapters[i]))
  }

  /** Lists and dicts cannot be hashed, so `Counter` raises on them. */
  predicate Hashable(v: Json)
  {
    !v.JArr? && !v.JObj?
  }

  /** The representative of a hashable value's equality class: Python has
      `True == 1` and `False == 0`. */
  function Norm(v: Json): Json
  {
    match v
    case JBool(b) => JInt(if b then 1 else 0)
    case _ => v
  }

  /** Python's `a == b` on narrators. Lists and dicts are compared
      structurally: when one occurs, `Counter` raises (see Rotation), so
      how they compare never reaches a result. */
  predicate PyEq(a: Json, b: Json)
  {
    if Hashable(a) && Hashable(b) then Norm(a) == Norm(b) else a == b
  }

  /** A string equals exactly itself. */
  lemma PyEqStr(a: Json, s: string)
    ensures PyEq(a, JStr(s)) <==> a == JStr(s)
  {
  }

  /** Some two neighbouring narrators are equal in Python's sense. */
  predicate AdjacentRepeat(voices: seq<Json>)
  {
    exists i :: 0 <= i < |voices| - 1 && PyEq(voices[i], voices[i + 1])
  }

  /** How many entries equal v in Python's sense: `Counter(voices)[v]`. */
  function Count(voices: seq<Json>, v: Json): (r: nat)
    ensures r <= |voices|
  {
    if |voices| == 0 then 0
    else Count(voices[..|voices| - 1], v) + (if PyEq(voices[|voices| - 1], v) then 1 else 0)
  }

  /** One TooFew error for each name, in order, that appears fewer than MIN_COUNT times. */
  function CountErrors(voices: seq<Json>, names: seq<string>): (r: seq<RotationError>)
    ensures |r| <= |names|
    ensures forall e :: e in r ==> e.TooFew? && e.name in names
  {
    if |names| == 0 then []
    else
      var c := Count(voices, JStr(names[0]));
      (if c < MIN_COUNT then [TooFew(names[0], c)] else []) + CountErrors(voices, names[1..])
  }

  /** The findings `check_rotation` reports when it completes. */
  function RotationErrors(chapters: seq<Dict<Json>>): (r: seq<RotationError>)
    ensures |r| <= 1 + |NAMES|
    ensures Repetition in r <==> AdjacentRepeat(Narrators(chapters))
    ensures forall i :: 0 < i < |r| ==> r[i].TooFew?
  {
    var voices := Narrators(chapters);
    var rep := if AdjacentRepeat(voices) then [Repetition] else [];
    var counts := CountErrors(voices, NAMES);
    assert Repetition !in counts;
    rep + counts
  }

  /** The exceptions `check_rotation` can raise. */
  datatype RotationFault =
    | NoGet       // a chapter is not a dict, so `ch.get` does not exist
    | Unhashable  // a narrator is a list or a dict, which `Counter` cannot hash

  /** Every chapter is a dict. */
  predicate AllObjects(chapters: seq<Json>)
  {
    forall i :: 0 <= i < |chapters| ==> chapters[i].JObj?
  }

  /** The dicts of chapters that are all dicts. */
  function Fields(chapters: seq<Json>): (r: seq<Dict<Json>>)
    requires AllObjects(chapters)
    ensures |r| == |chapters| && forall i :: 0 <= i < |r| ==> JObj(r[i]) == chapters[i]
  {
    seq(|chapters|, i requires 0 <= i < |chapters| => chapters[i].fields)
  }

  /** Dicts as the JSON values of a chapters list. */
  function Objects(dicts: seq<Dict<Json>>): (r: seq<Json>)
    ensures AllObjects(r) && Fields(r) == dicts
  {
    var r := seq(|dicts|, i requires 0 <= i < |dicts| => JObj(dicts[i]));
    assert Fields(r) == dicts;
    r
  }

  /** What `check_rotation` returns, or the exception it raises: the list
      comprehension fails first on a chapter that is not a dict, then
      `Counter` fails on a narrator that is a list or a dict. */
  function Rotation(chapters: seq<Json>): (r: Result<seq<RotationError>, RotationFault>)
    ensures r == Err(NoGet) <==> exists i :: 0 <= i < |chapters| && !chapters[i].JObj?
    ensures r == Err(Unhashable) <==>
      AllObjects(chapters) && exists i :: 0 <= i < |chapters| && !Hashable(Narrator(chapters[i].fields))
    ensures r.Ok? ==> AllObjects(chapters) && r.value == RotationErrors(Fields(chapters))
  {
    if !AllObjects(chapters) then Err(NoGet)
    else if forall i :: 0 <= i < |chapters| ==> Hashable(Narrator(chapters[i].fields)) then
      Ok(RotationErrors(Fields(chapters)))
    else Err(Unhashable)
  }

  /** A chapter that is not a dict raises before any narrator is counted,
      even when an earlier chapter's narrator could not be hashed. */
  lemma NoGetBeforeUnhashable()
    ensures Rotation([JObj([("narrator", JArr([]))]), JInt(0)]) == Err(NoGet)
  {
    var chapters := [JObj([("narrator", JArr([]))]), JInt(0)];
    assert !chapters[1].JObj?;
  }

  /** A null narrator and an absent one are a repetition. */
  lemma NullRepeatsAbsent()
    ensures Repetition in RotationErrors([[("narrator", JNull)], []])
  {
    var chapters: seq<Dict<Json>> := [[("narrator", JNull)], []];
    assert Narrators(chapters)[0] == JNull && Narrators(chapters)[1] == JNull;
  }

  /** A narrator `true` followed by a narrator `1` is a repetition. */
  lemma TrueRepeatsOne()
    ensures Repetition in RotationErrors([[("narrator", JBool(true))], [("narrator", JInt(1))]])
  {
    var chapters: seq<Dict<Json>> := [[("narrator", JBool(true))], [("narrator", JInt(1))]];
    assert Narrators(chapters)[0] == JBool(true) && Narrators(chapters)[1] == JInt(1);
  }

  /** Exactly the names below MIN_COUNT are reported, each with its count. */
  lemma {:induction false} CountErrorsExact(voices: seq<Json>, names: seq<string>, name: string)
    requires name in names
    ensures var c := Count(voices, JStr(name));
      (exists k :: TooFew(name, k) in CountErrors(voices, names)) <==> c < MIN_COUNT
    ensures forall k :: TooFew(name, k) in CountErrors(voices, names) ==> k == Count(voices, JStr(name))
  {
    if names[0] != name {
      CountErrorsExact(voices, names[1..], name);
    } else if name in names[1..] {
      CountErrorsExact(voices, names[1..], name);
    }
  }

  /** The rotation errors: at most one repetition error, reported first and
      exactly when two neighbours are equal; then one count error per voice
      below MIN_COUNT, carrying its count. */
  lemma RotationErrorsShape(chapters: seq<Dict<Json>>)
    ensures var errs := RotationErrors(chapters);
      && (Repetition in errs <==> AdjacentRepeat(Narrators(chapters)))
      && (forall i :: 0 < i < |errs| ==> errs[i].TooFew?)
      && |errs| <= 1 + |NAMES|
    ensures forall name :: name in NAMES ==>
      var c := Count(Narrators(chapters), JStr(name));
      ((exists k :: TooFew(name, k) in RotationErrors(chapters)) <==> c < MIN_COUNT)
      && forall k :: TooFew(name, k) in RotationErrors(chapters) ==> k == c
  {
    var voices := Narrators(chapters);
    var errs := RotationErrors(chapters);
    var counts := CountErrors(voices, NAMES);
    assert forall i :: 0 <= i < |counts| ==> counts[i] in counts;
    forall name | name in NAMES
      ensures var c := Count(voices, JStr(name));
        ((exists k :: TooFew(name, k) in errs) <==> c < MIN_COUNT)
        && forall k :: TooFew(name, k) in errs ==> k == c
    {
      CountErrorsExact(voices, NAMES, name);
    }
  }

  /** With no chapters, every voice is reported with count 0, in order. */
  lemma RotationErrorsEmpty()
    ensures RotationErrors([]) == [TooFew("Limnus", 0), TooFew("Garden", 0), TooFew("Kira", 0)]
  {
    var voices: seq<Json> := [];
    var names := NAMES;
    assert voices == Narrators([]);
    assert !AdjacentRepeat(voices);
    assert names[0] == "Limnus" && names[1..][0] == "Garden" && names[1..][1..][0] == "Kira";
    assert names[1..][1..][1..] == [];
    assert CountErrors(voices, names[1..][1..]) == [TooFew("Kira", 0)];
    assert CountErrors(voices, names[1..]) == [TooFew("Garden", 0), TooFew("Kira", 0)];
    assert CountErrors(voices, names) == [TooFew("Limnus", 0), TooFew("Garden", 0), TooFew("Kira", 0)];
  }

  /** The first loop of `check_rotation`: scan neighbouring pairs up to the
      first repeat. */
  method FindRepeat(voices: seq<Json>) returns (found: bool)
    ensures found == AdjacentRepeat(voices)
  {
    found := false;
    var i := 0;
    while i + 1 < |voices|
      invariant 0 <= i <= |voices|
      invariant forall j :: 0 <= j < i && j + 1 < |voices| ==> !PyEq(voices[j], voices[j + 1])
      decreases |voices| - i
    {
      if PyEq(voices[i], voices[i + 1]) {
        found := true;
        break;
      }
      i := i + 1;
    }
  }

  /** `Counter(voices)`: for each equality class of narrators, the number of
      entries in it (keyed by the class representative), or the fault raised
      on the first narrator that cannot be hashed. */
  method CountVoices(voices: seq<Json>) returns (r: Result<map<Json, nat>, RotationFault>)
    ensures r.Err? <==> exists j :: 0 <= j < |voices| && !Hashable(voices[j])
    ensures r.Ok? ==> forall v :: Hashable(v) ==>
      Count(voices, v) == (if Norm(v) in r.value then r.value[Norm(v)] else 0)
  {
    var counts: map<Json, nat> := map[];
    for q := 0 to |voices|
      invariant forall j :: 0 <= j < q ==> Hashable(voices[j])
      invariant forall v :: Hashable(v) ==>
        Count(voices[..q], v) == (if Norm(v) in counts then counts[Norm(v)] else 0)
    {
      var w := voices[q];
      if !Hashable(w) {
        return Err(Unhashable);
      }
      CountSnoc(voices, q);
      counts := counts[Norm(w) := (if Norm(w) in counts then counts[Norm(w)] else 0) + 1];
    }
    assert voices[..|voices|] == voices;
    return Ok(counts);
  }

  /** `check_rotation`: the repeat scan, the count, then the three voices
      checked in order. */
  method CheckRotation(chapters: seq<Json>) returns (r: Result<seq<RotationError>, RotationFault>)
    ensures r == Rotation(chapters)
  {
    var voices: seq<Json> := [];
    for i := 0 to |chapters|
      invariant forall j :: 0 <= j < i ==> chapters[j].JObj?
      invariant |voices| == i && forall j :: 0 <= j < i ==> voices[j] == Narrator(chapters[j].fields)
    {
      if !chapters[i].JObj? {
        return Err(NoGet);
      }
      voices := voices + [Narrator(chapters[i].fields)];
    }
    var dicts := Fields(chapters);
    assert voices == Narrators(dicts);
    var errors: seq<RotationError> := [];
    var repeat := FindRepeat(voices);
    if repeat {
      errors := [Repetition];
    }
    var counted := CountVoices(voices);
    if counted.Err? {
      return Err(Unhashable);
    }
    var counts := counted.value;
    assert errors == (if AdjacentRepeat(voices) then [Repetition] else []);
    ghost var pre := errors;
    for n := 0 to |NAMES|
      invariant errors == pre + CountErrors(voices, NAMES[..n])
    {
      var name := NAMES[n];
      var c := if Norm(JStr(name)) in counts then counts[Norm(JStr(name))] else 0;
      assert Hashable(JStr(name));
      assert c == Count(voices, JStr(name));
      var step := if c < MIN_COUNT then [TooFew(name, c)] else [];
      CountErrorsPrefix(voices, NAMES, n);
      ConcatAssoc(pre, CountErrors(voices, NAMES[..n]), step);
      errors := errors + step;
    }
    assert NAMES[..|NAMES|] == NAMES;
    assert errors == RotationErrors(dicts);
    return Ok(errors);
  }

  /** CountErrors on a prefix of the names one name longer. */
  lemma CountErrorsPrefix(voices: seq<Json>, names: seq<string>, n: nat)
    requires n < |names|
    ensures var c := Count(voices, JStr(names[n]));
      CountErrors(voices, names[..n + 1]) ==
        CountErrors(voices, names[..n]) + (if c < MIN_COUNT then [TooFew(names[n], c)] else [])
  {
    CountErrorsSnoc(voices, names[..n + 1]);
    assert names[..n + 1][..n] == names[..n];
  }

  /** Count on a prefix one entry longer. */
  lemma CountSnoc(voices: seq<Json>, q: nat)
    requires q < |voices|
    ensures forall v :: Count(voices[..q + 1], v) == Count(voices[..q], v) + (if PyEq(voices[q], v) then 1 else 0)
  {
    assert voices[..q + 1][..q] == voices[..q];
  }

  /** CountErrors grows at the end as the list of names does. */
  lemma {:induction false} CountErrorsSnoc(voices: seq<Json>, names: seq<string>)
    requires |names| > 0
    ensures var last := names[|names| - 1];
      var c := Count(voices, JStr(last));
      CountErrors(voices, names) ==
        CountErrors(voices, names[..|names| - 1]) + (if c < MIN_COUNT then [TooFew(last, c)] else [])
  {
    if |names| > 1 {
      var init := names[..|names| - 1];
      var last := names[|names| - 1];
      var c := Count(voices, JStr(last));
      var tail := if c < MIN_COUNT then [TooFew(last, c)] else [];
      var c0 := Count(voices, JStr(names[0]));
      var head := if c0 < MIN_COUNT then [TooFew(names[0], c0)] else [];
      assert names[1..][..|names[1..]| - 1] == init[1..];
      assert names[1..][|names[1..]| - 1] == last;
      CountErrorsSnoc(voices, names[1..]);
      assert init[0] == names[0];
      ConcatAssoc(head, CountErrors(voices, init[1..]), tail);
    }
  }

  // ---------------------------------------------------------------------
  // The flags line

  /** The whitespace tokens of each comma-separated part, once stripped. */
  function PartTokens(parts: seq<string>): (r: seq<seq<string>>)
    ensures |r| == |parts|
  {
    seq(|parts|, i requires 0 <= i < |parts| => Tokens(Strip(parts[i])))
  }

  /** The dict built from the parts' tokens in order, each part with exactly
      two tokens storing its second token under its first, a later part
      overwriting an earlier one. */
  function FlagsOf(tokens: seq<seq<string>>): (r: Dict<string>)
    ensures DistinctKeys(r)
  {
    if |tokens| == 0 then []
    else
      var d := FlagsOf(tokens[..|tokens| - 1]);
      var t := tokens[|tokens| - 1];
      if |t| == 2 then
        PutDistinct(d, t[0], t[1]);
        Put(d, t[0], t[1])
      else d
  }

  /** What `parse_flags_text` returns. */
  function ParseFlags(text: string): (r: Dict<string>)
    ensures DistinctKeys(r)
  {
    FlagsOf(PartTokens(SplitOn(text, ',')))
  }

  /** Part i is [k, v] and no later two-token part names k. */
  ghost predicate LastNaming(tokens: seq<seq<string>>, k: string, v: string, i: int)
  {
    0 <= i < |tokens| && tokens[i] == [k, v] &&
    forall j :: i < j < |tokens| && |tokens[j]| == 2 ==> tokens[j][0] != k
  }

  /** A part that does not name k keeps the last part naming k the last. */
  lemma LastNamingSnoc(tokens: seq<seq<string>>, t: seq<string>, k: string, v: string)
    requires (exists i :: LastNaming(tokens, k, v, i)) && !(|t| == 2 && t[0] == k)
    ensures exists i :: LastNaming(tokens + [t], k, v, i)
  {
    var i :| LastNaming(tokens, k, v, i);
    var s := tokens + [t];
    assert s[i] == tokens[i];
    forall j | i < j < |s| && |s[j]| == 2 ensures s[j][0] != k {
      if j < |tokens| {
        assert s[j] == tokens[j];
      }
    }
    assert LastNaming(s, k, v, i);
  }

  /** The value the last two-token part naming k gives it, scanning from the end. */
  function LastValue(tokens: seq<seq<string>>, k: string): (r: Option<string>)
    ensures r.None? <==> forall i :: 0 <= i < |tokens| && |tokens[i]| == 2 ==> tokens[i][0] != k
    ensures r.Some? ==> exists i :: LastNaming(tokens, k, r.value, i)
  {
    if |tokens| == 0 then None
    else
      var n := |tokens|;
      var t := tokens[n - 1];
      if |t| == 2 && t[0] == k then
        assert LastNaming(tokens, k, t[1], n - 1);
        Some(t[1])
      else
        var init := tokens[..n - 1];
        var r := LastValue(init, k);
        assert tokens == init + [t];
        if r.Some? then
          LastNamingSnoc(init, t, k, r.value);
          r
        else
          assert forall i :: 0 <= i < n - 1 ==> init[i] == tokens[i];
          r
  }

  /** Every key of the parsed dict holds the value of the last part naming it,
      and a key no two-token part names is absent. */
  lemma {:induction false} FlagsOfLastWins(tokens: seq<seq<string>>, k: string)
    ensures Get(FlagsOf(tokens), k) == LastValue(tokens, k)
  {
    if |tokens| > 0 {
      var n := |tokens|;
      FlagsOfLastWins(tokens[..n - 1], k);
      var t := tokens[n - 1];
      if |t| == 2 && t[0] != k {
        GetPutOther(FlagsOf(tokens[..n - 1]), t[0], t[1], k);
      }
    }
  }

  /** In the parsed flags line, each key holds the value of the last part
      naming it, and a key no part names is absent. */
  lemma ParseFlagsLastWins(text: string, k: string)
    ensures Get(ParseFlags(text), k) == LastValue(PartTokens(SplitOn(text, ',')), k)
  {
    FlagsOfLastWins(PartTokens(SplitOn(text, ',')), k);
  }

  /** FlagsOf on a prefix one part longer. */
  lemma FlagsOfSnoc(tokens: seq<seq<string>>, i: nat)
    requires i < |tokens|
    ensures FlagsOf(tokens[..i + 1]) ==
      var d := FlagsOf(tokens[..i]);
      if |tokens[i]| == 2 then Put(d, tokens[i][0], tokens[i][1]) else d
  {
    assert tokens[..i + 1][..i] == tokens[..i];
  }

  /** `parse_flags_text`: strip each comma-separated part, keep the ones
      with exactly two tokens. */
  method ParseFlagsText(text: string) returns (out: Dict<string>)
    ensures out == ParseFlags(text)
  {
    var raw := SplitOn(text, ',');
    var parts := seq(|raw|, i requires 0 <= i < |raw| => Strip(raw[i]));
    ghost var tokens := PartTokens(raw);
    out := [];
    for i := 0 to |parts|
      invariant out == FlagsOf(tokens[..i])
    {
      FlagsOfSnoc(tokens, i);
      var t := Tokens(parts[i]);
      if |t| == 2 {
        out := Put(out, t[0], t[1]);
      }
    }
    assert tokens[..|tokens|] == tokens;
  }

  // ---------------------------------------------------------------------
  // Shape check against the chapter schema

  /** The number of chapters the metadata must hold. */
  const CHAPTER_COUNT: nat := 20

  /** A finding of the shape check; `chapter` is the chapter's own "chapter"
      value, or its 1-based position when it has none. */
  datatype SchemaError =
    | RootNotObject
    | NoChaptersArray
    | WrongChapterCount(found: nat)
    | ChapterNotObject(index: nat)
    | MissingFields(chapter: Json, fields: seq<string>)
    | NotInteger(chapter: Json, key: string)
    | NotString(chapter: Json, key: string)
    | NotArray(chapter: Json, key: string)
    | NotObject(chapter: Json, key: string)

  /** An exception raised while reading the schema, instead of a result. */
  datatype SchemaFault =
    | NoGetMethod(path: string)   // `.get` or `.items()` on a value that is not a dict
    | NotIterable(path: string)   // `set()` of a number, a bool or None
    | OutOfModel(path: string)    // a required list with members that are not strings

  /** `j.get(key, default)`, where j must be a dict. */
  function GetOr(j: Json, key: string, default: Json, path: string): (r: Result<Json, SchemaFault>)
    ensures r.Err? <==> !j.JObj?
    ensures j.JObj? && !HasKey(j.fields, key) ==> r == Ok(default)
  {
    if !j.JObj? then Err(NoGetMethod(path))
    else
      match Get(j.fields, key)
      case None => Ok(default)
      case Some(v) => Ok(v)
  }

  /** `schema.get("$defs", {}).get("chapter", {})`. */
  function ChapterSchema(schema: Json): (r: Result<Json, SchemaFault>)
    ensures r.Err? <==>
      (!schema.JObj? || (Get(schema.fields, "$defs").Some? && !Get(schema.fields, "$defs").value.JObj?))
    ensures schema.JObj? && Get(schema.fields, "$defs").None? ==> r == Ok(JObj([]))
  {
    var defs :- GetOr(schema, "$defs", JObj([]), "schema");
    GetOr(defs, "chapter", JObj([]), "$defs")
  }

  /** `set(chapter_schema.get("required", []))`, as a sequence that may repeat. */
  function Required(chapterSchema: Json): (r: Result<seq<string>, SchemaFault>)
    ensures r.Err? && !r.error.OutOfModel? ==> !chapterSchema.JObj? || HasKey(chapterSchema.fields, "required")
    ensures chapterSchema.JObj? && !HasKey(chapterSchema.fields, "required") ==> r == Ok([])
    ensures chapterSchema.JObj? && Get(chapterSchema.fields, "required").Some? && r.Ok? ==>
      match Get(chapterSchema.fields, "required").value
      case JArr(xs) => |r.value| == |xs| && forall i :: 0 <= i < |xs| ==> xs[i] == JStr(r.value[i])
      case _ => true
    ensures (chapterSchema.JObj? && Get(chapterSchema.fields, "required").Some?
      && Get(chapterSchema.fields, "required").value.JArr?
      && forall i :: 0 <= i < |Get(chapterSchema.fields, "required").value.items| ==>
           Get(chapterSchema.fields, "required").value.items[i].JStr?) ==> r.Ok?
  {
    var req :- GetOr(chapterSchema, "required", JArr([]), "chapter");
    match req
    case JArr(xs) =>
      if forall i :: 0 <= i < |xs| ==> xs[i].JStr? then
        Ok(seq(|xs|, i requires 0 <= i < |xs| && xs[i].JStr? => xs[i].s))
      else Err(OutOfModel("required"))
    case JStr(s) => Ok(Chars(s))
    case JObj(f) => Ok(Keys(f))
    case _ => Err(NotIterable("required"))
  }

  /** `v.get("type")` for every property, in the order of the properties. */
  function TypesOf(props: Dict<Json>): (r: Result<Dict<Json>, SchemaFault>)
    ensures r.Ok? ==> Keys(r.value) == Keys(props)
  {
    if |props| == 0 then Ok([])
    else
      var init :- TypesOf(props[..|props| - 1]);
      var t :- GetOr(props[|props| - 1].1, "type", JNull, "properties");
      assert Keys(init + [(props[|props| - 1].0, t)]) == Keys(init) + [props[|props| - 1].0];
      assert Keys(props) == Keys(props[..|props| - 1]) + [props[|props| - 1].0];
      Ok(init + [(props[|props| - 1].0, t)])
  }

  /** `{k: v.get("type") for k, v in chapter_schema.get("properties", {}).items()}`. */
  function PropTypes(chapterSchema: Json): (r: Result<Dict<Json>, SchemaFault>)
    ensures r.Ok? ==> chapterSchema.JObj?
    ensures r.Ok? && Get(chapterSchema.fields, "properties").None? ==> r.value == []
    ensures r.Ok? && Get(chapterSchema.fields, "properties").Some? ==>
      Get(chapterSchema.fields, "properties").value.JObj?
      && Keys(r.value) == Keys(Get(chapterSchema.fields, "properties").value.fields)
  {
    var props :- GetOr(chapterSchema, "properties", JObj([]), "chapter");
    if !props.JObj? then Err(NoGetMethod("properties")) else TypesOf(props.fields)
  }

  /** Python truthiness of a JSON value. */
  predicate Truthy(j: Json)
  {
    match j
    case JNull => false
    case JBool(b) => b
    case JInt(n) => n != 0
    case JStr(s) => s != []
    case JArr(xs) => xs != []
    case JObj(f) => f != []
  }

  /** `ch.get('chapter', idx)`. */
  function Label(ch: Dict<Json>, idx: nat): Json
  {
    match Get(ch, "chapter")
    case Some(v) => v
    case None => JInt(idx)
  }

  /** The required names a chapter lacks, with repeats. */
  function Absent(required: seq<string>, ch: Dict<Json>): (r: seq<string>)
    ensures forall k :: k in r <==> k in required && !HasKey(ch, k)
  {
    if |required| == 0 then []
    else
      var init := Absent(required[..|required| - 1], ch);
      var k := required[|required| - 1];
      assert forall x :: x in required <==> x in required[..|required| - 1] || x == k by {
        assert required == required[..|required| - 1] + [k];
      }
      if HasKey(ch, k) then init else init + [k]
  }

  /** v does not have the declared JSON type t; a bool counts as an integer,
      as `isinstance(True, int)` holds. */
  predicate Mismatch(t: Json, v: Json)
  {
    || (t == JStr("integer") && !v.JInt? && !v.JBool?)
    || (t == JStr("string") && !v.JStr?)
    || (t == JStr("array") && !v.JArr?)
    || (t == JStr("object") && !v.JObj?)
  }

  /** The type finding for one declared property, if any. */
  function TypeError(k: string, t: Json, ch: Dict<Json>, tag: Json): (r: seq<SchemaError>)
    ensures |r| <= 1
    ensures r != [] <==> HasKey(ch, k) && Mismatch(t, Get(ch, k).value)
    ensures forall e :: e in r ==>
      (e.NotInteger? || e.NotString? || e.NotArray? || e.NotObject?) && e.key == k && e.chapter == tag
  {
    match Get(ch, k)
    case None => []
    case Some(v) =>
      if !Truthy(t) then []
      else if t == JStr("integer") && !(v.JInt? || v.JBool?) then [NotInteger(tag, k)]
      else if t == JStr("string") && !v.JStr? then [NotString(tag, k)]
      else if t == JStr("array") && !v.JArr? then [NotArray(tag, k)]
      else if t == JStr("object") && !v.JObj? then [NotObject(tag, k)]
      else []
  }

  /** The type findings for one chapter, in the order of the declared properties. */
  function TypeErrors(types: Dict<Json>, ch: Dict<Json>, tag: Json): (r: seq<SchemaError>)
    ensures |r| <= |types|
    ensures forall e :: e in r ==>
      (e.NotInteger? || e.NotString? || e.NotArray? || e.NotObject?) && HasKey(ch, e.key) && HasKey(types, e.key)
      && e.chapter == tag
  {
    if |types| == 0 then []
    else
      var n := |types|;
      var init := TypeErrors(types[..n - 1], ch, tag);
      assert forall k :: HasKey(types[..n - 1], k) ==> HasKey(types, k) by {
        forall k | HasKey(types[..n - 1], k)
          ensures HasKey(types, k)
        {
          var i :| 0 <= i < n - 1 && types[..n - 1][i].0 == k;
          assert types[i].0 == k;
        }
      }
      assert types[n - 1].0 == types[n - 1].0;
      init + TypeError(types[n - 1].0, types[n - 1].1, ch, tag)
  }

  /** Every declared property's finding is among the chapter's type findings. */
  lemma {:induction false} TypeErrorsComplete(types: Dict<Json>, ch: Dict<Json>, tag: Json, i: nat)
    requires i < |types|
    ensures forall e :: e in TypeError(types[i].0, types[i].1, ch, tag) ==> e in TypeErrors(types, ch, tag)
  {
    var n := |types|;
    var init := TypeErrors(types[..n - 1], ch, tag);
    var last := TypeError(types[n - 1].0, types[n - 1].1, ch, tag);
    assert TypeErrors(types, ch, tag) == init + last;
    if i < n - 1 {
      assert types[..n - 1][i] == types[i];
      TypeErrorsComplete(types[..n - 1], ch, tag, i);
    }
  }

  /** The findings for the chapter at 1-based position idx. */
  function ChapterErrors(idx: nat, ch: Json, required: seq<string>, types: Dict<Json>): (r: seq<SchemaError>)
    ensures !ch.JObj? ==> r == [ChapterNotObject(idx)]
    ensures ch.JObj? ==> forall e :: e in r ==>
      (e.MissingFields? || e.NotInteger? || e.NotString? || e.NotArray? || e.NotObject?)
      && e.chapter == Label(ch.fields, idx)
  {
    if !ch.JObj? then [ChapterNotObject(idx)]
    else
      var tag := Label(ch.fields, idx);
      var missing := SortedSet(Absent(required, ch.fields));
      (if missing != [] then [MissingFields(tag, missing)] else [])
        + TypeErrors(types, ch.fields, tag)
  }

  /** The findings for every chapter, in order, numbering them from 1. */
  function AllChapterErrors(chapters: seq<Json>, required: seq<string>, types: Dict<Json>): (r: seq<SchemaError>)
    ensures forall e :: e in r && e.ChapterNotObject? ==>
      1 <= e.index <= |chapters| && !chapters[e.index - 1].JObj?
  {
    if |chapters| == 0 then []
    else
      var n := |chapters|;
      assert forall j :: 0 <= j < n - 1 ==> chapters[..n - 1][j] == chapters[j];
      AllChapterErrors(chapters[..n - 1], required, types)
        + ChapterErrors(n, chapters[n - 1], required, types)
  }

  /** What `basic_validate_against_schema` returns, or the fault it raises. */
  function SchemaErrors(meta: Json, schema: Json): (r: Result<seq<SchemaError>, SchemaFault>)
    ensures !meta.JObj? ==> r == Ok([RootNotObject])
    ensures meta.JObj? && (Get(meta.fields, "chapters").None? || !Get(meta.fields, "chapters").value.JArr?) ==>
      r == Ok([NoChaptersArray])
    ensures r.Ok? && r.value != [] && (r.value[0].RootNotObject? || r.value[0].NoChaptersArray?) ==>
      |r.value| == 1
  {
    if !meta.JObj? then Ok([RootNotObject])
    else
      match Get(meta.fields, "chapters")
      case None => Ok([NoChaptersArray])
      case Some(c) =>
        if !c.JArr? then Ok([NoChaptersArray])
        else ArrayErrors(c.items, schema)
  }

  /** The check once "chapters" is an array: the count finding, the schema
      read, then every chapter's findings. */
  function ArrayErrors(chapters: seq<Json>, schema: Json): (r: Result<seq<SchemaError>, SchemaFault>)
    ensures r.Ok? ==> forall e :: e in r.value ==> !e.RootNotObject? && !e.NoChaptersArray?
  {
    var countError := if |chapters| != CHAPTER_COUNT then [WrongChapterCount(|chapters|)] else [];
    var chapterSchema :- ChapterSchema(schema);
    var required :- Required(chapterSchema);
    var types :- PropTypes(chapterSchema);
    var rest := AllChapterErrors(chapters, required, types);
    AllChapterErrorsKinds(chapters, required, types);
    Ok(countError + rest)
  }

  /** With a chapters array, the check raises exactly when reading the
      chapter schema, its required names or its property types does. */
  lemma SchemaFaults(meta: Json, schema: Json, chapters: seq<Json>)
    requires meta.JObj? && Get(meta.fields, "chapters") == Some(JArr(chapters))
    ensures SchemaErrors(meta, schema).Err? <==>
      ChapterSchema(schema).Err? || Required(ChapterSchema(schema).value).Err?
      || PropTypes(ChapterSchema(schema).value).Err?
  {
    assert SchemaErrors(meta, schema) == ArrayErrors(chapters, schema);
  }

  /** Otherwise it reports the count finding exactly when there are not 20
      chapters, followed by the findings of every chapter. */
  lemma SchemaErrorsOfArray(meta: Json, schema: Json, chapters: seq<Json>)
    requires meta.JObj? && Get(meta.fields, "chapters") == Some(JArr(chapters))
    requires ChapterSchema(schema).Ok?
    requires Required(ChapterSchema(schema).value).Ok? && PropTypes(ChapterSchema(schema).value).Ok?
    ensures var cs := ChapterSchema(schema).value;
      var rest := AllChapterErrors(chapters, Required(cs).value, PropTypes(cs).value);
      SchemaErrors(meta, schema) ==
        Ok((if |chapters| != CHAPTER_COUNT then [WrongChapterCount(|chapters|)] else []) + rest)
    ensures SchemaErrors(meta, schema).Ok? &&
      (WrongChapterCount(|chapters|) in SchemaErrors(meta, schema).value <==> |chapters| != CHAPTER_COUNT)
  {
    assert SchemaErrors(meta, schema) == ArrayErrors(chapters, schema);
    var cs := ChapterSchema(schema).value;
    var required, types := Required(cs).value, PropTypes(cs).value;
    var rest := AllChapterErrors(chapters, required, types);
    AllChapterErrorsKinds(chapters, required, types);
    assert WrongChapterCount(|chapters|) !in rest;
  }

  /** The findings of the chapters up to and including position i, in
      order, begin the findings of the whole list. */
  lemma ChapterPrefix(chapters: seq<Json>, required: seq<string>, types: Dict<Json>, i: nat)
    requires i < |chapters|
    ensures AllChapterErrors(chapters[..i], required, types) + ChapterErrors(i + 1, chapters[i], required, types)
      <= AllChapterErrors(chapters, required, types)
  {
    AllChapterErrorsSnoc(chapters, required, types, i + 1);
    PrefixGrows(chapters, required, types, i + 1, |chapters|);
    assert chapters[..|chapters|] == chapters;
  }

  /** One more chapter appends its findings. */
  lemma AllChapterErrorsSnoc(chapters: seq<Json>, required: seq<string>, types: Dict<Json>, k: nat)
    requires 0 < k <= |chapters|
    ensures AllChapterErrors(chapters[..k], required, types) ==
      AllChapterErrors(chapters[..k - 1], required, types) + ChapterErrors(k, chapters[k - 1], required, types)
  {
    assert chapters[..k][..k - 1] == chapters[..k - 1];
    assert chapters[..k][k - 1] == chapters[k - 1];
  }

  /** The findings of a shorter prefix of the chapters begin those of a longer one. */
  lemma {:induction false} PrefixGrows(chapters: seq<Json>, required: seq<string>, types: Dict<Json>, j: nat, k: nat)
    requires j <= k <= |chapters|
    ensures AllChapterErrors(chapters[..j], required, types) <= AllChapterErrors(chapters[..k], required, types)
    decreases k - j
  {
    if j < k {
      PrefixGrows(chapters, required, types, j, k - 1);
      AllChapterErrorsSnoc(chapters, required, types, k);
      PrefixExtend(AllChapterErrors(chapters[..j], required, types), AllChapterErrors(chapters[..k - 1], required, types),
        ChapterErrors(k, chapters[k - 1], required, types));
    }
  }

  /** Every chapter is checked: each one's findings are among the findings
      of the whole list. */
  lemma ChapterChecked(chapters: seq<Json>, required: seq<string>, types: Dict<Json>, i: nat)
    requires i < |chapters|
    ensures forall e :: e in ChapterErrors(i + 1, chapters[i], required, types) ==>
      e in AllChapterErrors(chapters, required, types)
  {
    ChapterPrefix(chapters, required, types, i);
    PrefixHas(AllChapterErrors(chapters[..i], required, types), ChapterErrors(i + 1, chapters[i], required, types),
      AllChapterErrors(chapters, required, types));
  }

  /** Per-chapter findings never include the root-level ones. */
  lemma {:induction false} AllChapterErrorsKinds(chapters: seq<Json>, required: seq<string>, types: Dict<Json>)
    ensures forall e :: e in AllChapterErrors(chapters, required, types) ==>
      !e.RootNotObject? && !e.NoChaptersArray? && !e.WrongChapterCount?
  {
    if |chapters| > 0 {
      var n := |chapters|;
      AllChapterErrorsKinds(chapters[..n - 1], required, types);
      ChapterErrorsKinds(n, chapters[n - 1], required, types);
    }
  }

  /** One chapter's findings never include the root-level ones. */
  lemma ChapterErrorsKinds(idx: nat, ch: Json, required: seq<string>, types: Dict<Json>)
    ensures forall e :: e in ChapterErrors(idx, ch, required, types) ==>
      !e.RootNotObject? && !e.NoChaptersArray? && !e.WrongChapterCount?
  {
  }

  /** A chapter that is not an object gets its one finding under its 1-based
      position, and every chapter is checked whatever the count. */
  lemma NonObjectChapterReported(chapters: seq<Json>, required: seq<string>, types: Dict<Json>, i: nat)
    requires i < |chapters| && !chapters[i].JObj?
    ensures ChapterNotObject(i + 1) in AllChapterErrors(chapters, required, types)
  {
    ChapterChecked(chapters, required, types, i);
    assert ChapterErrors(i + 1, chapters[i], required, types) == [ChapterNotObject(i + 1)];
  }

  /** For an object chapter, the missing-fields finding appears exactly when a
      required name is absent, and lists those names once each, sorted. */
  lemma MissingFieldsExact(idx: nat, ch: Dict<Json>, required: seq<string>, types: Dict<Json>)
    ensures var errs := ChapterErrors(idx, JObj(ch), required, types);
      && ((exists e :: e in errs && e.MissingFields?) <==> exists k :: k in required && !HasKey(ch, k))
      && forall e :: e in errs && e.MissingFields? ==>
           StrictlySorted(e.fields) && (forall k :: k in e.fields <==> k in required && !HasKey(ch, k))
  {
    var tag := Label(ch, idx);
    var missing := Absent(required, ch);
    var sorted := SortedSet(missing);
    var head: seq<SchemaError> := if sorted != [] then [MissingFields(tag, sorted)] else [];
    var types' := TypeErrors(types, ch, tag);
    var errs := ChapterErrors(idx, JObj(ch), required, types);
    assert errs == head + types';
    assert forall k :: k in sorted <==> k in missing by {
      assert forall k :: k in sorted <==> k in Elems(sorted);
      assert forall k :: k in missing <==> k in Elems(missing);
    }
    assert sorted == [] <==> missing == [] by {
      if sorted != [] {
        assert sorted[0] in sorted;
      }
    }
    forall e | e in errs && e.MissingFields?
      ensures e == MissingFields(tag, sorted)
    {
      assert e in head || e in types';
    }
    if sorted != [] {
      assert MissingFields(tag, sorted) in errs;
    }
  }

  /** The findings for one chapter: its shape, its missing names, then the
      type of each declared property it holds. */
  method CheckChapter(idx: nat, ch: Json, required: seq<string>, types: Dict<Json>) returns (errors: seq<SchemaError>)
    ensures errors == ChapterErrors(idx, ch, required, types)
  {
    if !ch.JObj? {
      return [ChapterNotObject(idx)];
    }
    var fields := ch.fields;
    var tag := Label(fields, idx);
    var missing := SortedSet(Absent(required, fields));
    var typeErrors := CheckTypes(types, fields, tag);
    errors := (if missing != [] then [MissingFields(tag, missing)] else []) + typeErrors;
  }

  /** The inner loop over the declared properties of one chapter. */
  method CheckTypes(types: Dict<Json>, fields: Dict<Json>, tag: Json) returns (errors: seq<SchemaError>)
    ensures errors == TypeErrors(types, fields, tag)
  {
    errors := [];
    for j := 0 to |types|
      invariant errors == TypeErrors(types[..j], fields, tag)
    {
      var (k, t) := types[j];
      assert types[..j + 1][..j] == types[..j];
      errors := errors + TypeError(k, t, fields, tag);
    }
    assert types[..|types|] == types;
  }

  /** The check on a loaded metadata document and schema. */
  method BasicValidate(meta: Json, schema: Json) returns (r: Result<seq<SchemaError>, SchemaFault>)
    ensures r == SchemaErrors(meta, schema)
  {
    if !meta.JObj? {
      return Ok([RootNotObject]);
    }
    var found := Get(meta.fields, "chapters");
    if found.None? || !found.value.JArr? {
      return Ok([NoChaptersArray]);
    }
    var chapters := found.value.items;
    r := CheckArray(chapters, schema);
    assert SchemaErrors(meta, schema) == ArrayErrors(chapters, schema);
  }

  /** The check once "chapters" is an array: the count, the schema reads, the chapter loop. */
  method CheckArray(chapters: seq<Json>, schema: Json) returns (r: Result<seq<SchemaError>, SchemaFault>)
    ensures r == ArrayErrors(chapters, schema)
  {
    var errors: seq<SchemaError> := [];
    if |chapters| != CHAPTER_COUNT {
      errors := [WrongChapterCount(|chapters|)];
    }
    var chapterSchema :- ChapterSchema(schema);
    var required :- Required(chapterSchema);
    var types :- PropTypes(chapterSchema);
    var found := CheckChapters(chapters, required, types);
    return Ok(errors + found);
  }

  /** The loop over the chapters, numbered from 1. */
  method CheckChapters(chapters: seq<Json>, required: seq<string>, types: Dict<Json>)
    returns (errors: seq<SchemaError>)
    ensures errors == AllChapterErrors(chapters, required, types)
  {
    errors := [];
    for i := 0 to |chapters|
      invariant errors == AllChapterErrors(chapters[..i], required, types)
    {
      var found := CheckChapter(i + 1, chapters[i], required, types);
      assert chapters[..i + 1][..i] == chapters[..i];
      errors := errors + found;
    }
    assert chapters[..|chapters|] == chapters;
  }
}
