/** A reader of JSON texts, RFC 8259 sections 2 to 7 without insignificant white space, and what it reads from the
    canonical text of a payload. */
module JsonReading {
  import opened JsText
  import opened CanonicalJson

  datatype Reading<T> = Reading(value: T, rest: Text)

  // ---- The reader -------------------------------------------------------------------------------------------------

  /** The rest of a string after its opening quote: control characters are escaped, an escape is read as what it means.
      */
  function ReadString(t: Text): (r: Option<Reading<Text>>)
    ensures r.Some? ==> |r.value.rest| < |t|
    decreases |t|
  {
    if t == [] || t[0] < 0x20 then None
    else if t[0] == QUOTE then Some(Reading([], t[1..]))
    else
      var (u, n) := ReadUnit(t);
      if !(0 <= u < 0x10000 && 0 < n <= |t|) then None
      else
        match ReadString(t[n..])
        case None => None
        case Some(tail) => Some(Reading([u] + tail.value, tail.rest))
  }

  predicate InNumber(u: CodeUnit) {
    0x30 <= u <= 0x39 || u == 0x2D || u == 0x2B || u == 0x2E || u == 0x65
  }

  function NumberLength(t: Text): (n: nat)
    ensures n <= |t|
  {
    if t == [] || !InNumber(t[0]) then 0 else 1 + NumberLength(t[1..])
  }

  /** A value at the start of the text, and what follows it. `undefined` is read as the language prints it. */
  function ReadValue(t: Text): (r: Option<Reading<Json>>)
    ensures r.Some? ==> |r.value.rest| < |t|
    decreases |t|, 0
  {
    if t == [] then None
    else if t[0] == QUOTE then
      match ReadString(t[1..])
      case None => None
      case Some(s) => Some(Reading(Str(s.value), s.rest))
    else if t[0] == OPEN_BRACKET then
      if |t| > 1 && t[1] == CLOSE_BRACKET then Some(Reading(Arr([]), t[2..]))
      else
        match ReadItems(t[1..])
        case None => None
        case Some(items) => Some(Reading(Arr(items.value), items.rest))
    else if t[0] == OPEN_BRACE then
      if |t| > 1 && t[1] == CLOSE_BRACE then Some(Reading(Obj([]), t[2..]))
      else
        match ReadMembers(t[1..])
        case None => None
        case Some(fields) => Some(Reading(Obj(fields.value), fields.rest))
    else ReadWord(t)
  }

  /** Numbers and the literal names. */
  function ReadWord(t: Text): (r: Option<Reading<Json>>)
    ensures r.Some? ==> |r.value.rest| < |t|
  {
    var n := NumberLength(t);
    if n > 0 then Some(Reading(Number(t[..n]), t[n..]))
    else if Starts(t, "null") then Some(Reading(Null, t[4..]))
    else if Starts(t, "true") then Some(Reading(Bool(true), t[4..]))
    else if Starts(t, "false") then Some(Reading(Bool(false), t[5..]))
    else if Starts(t, "undefined") then Some(Reading(Undefined, t[9..]))
    else None
  }

  predicate Starts(t: Text, word: string) {
    |word| <= |t| && forall i :: 0 <= i < |word| ==> t[i] == word[i] as int
  }

  /** The items of an array after its opening bracket or a comma. */
  function ReadItems(t: Text): (r: Option<Reading<seq<Json>>>)
    ensures r.Some? ==> |r.value.rest| < |t|
    decreases |t|, 1
  {
    match ReadValue(t)
    case None => None
    case Some(head) =>
      if head.rest == [] then None
      else if head.rest[0] == CLOSE_BRACKET then Some(Reading([head.value], head.rest[1..]))
      else if head.rest[0] != COMMA then None
      else
        match ReadItems(head.rest[1..])
        case None => None
        case Some(tail) => Some(Reading([head.value] + tail.value, tail.rest))
  }

  /** The members of an object after its opening brace or a comma. */
  function ReadMembers(t: Text): (r: Option<Reading<seq<Field>>>)
    ensures r.Some? ==> |r.value.rest| < |t|
    decreases |t|, 1
  {
    match ReadMember(t)
    case None => None
    case Some(head) =>
      if head.rest == [] then None
      else if head.rest[0] == CLOSE_BRACE then Some(Reading([head.value], head.rest[1..]))
      else if head.rest[0] != COMMA then None
      else
        match ReadMembers(head.rest[1..])
        case None => None
        case Some(tail) => Some(Reading([head.value] + tail.value, tail.rest))
  }

  function ReadMember(t: Text): (r: Option<Reading<Field>>)
    ensures r.Some? ==> |r.value.rest| < |t|
    decreases |t|, 0
  {
    if t == [] || t[0] != QUOTE then None
    else
      match ReadString(t[1..])
      case None => None
      case Some(key) =>
        if key.rest == [] || key.rest[0] != COLON then None
        else
          match ReadValue(key.rest[1..])
          case None => None
          case Some(v) => Some(Reading(Field(key.value, v.value), v.rest))
  }

  // ---- Reading a canonical text back --------------------------------------------------------------------------------

  lemma {:induction false} StringReads(s: Text, afterLead: bool, r: Text)
    ensures ReadString(EncodeUnits(s, afterLead) + [QUOTE] + r) == Some(Reading(s, r))
    decreases |s|
  {
    hide EncodeUnit, ReadUnit, IsLead, IsTrail;
    var x := EncodeUnits(s, afterLead) + [QUOTE] + r;
    if s == [] {
      assert x == [QUOTE] + r && x[1..] == r;
    } else {
      var n := FirstUnit(s, afterLead, r);
      FirstPrintable(s, afterLead, r);
      StringReads(s[1..], IsLead(s[0]), r);
      UnitLength(x);
      assert s == [s[0]] + s[1..];
    }
  }

  lemma UnitLength(x: Text)
    requires x != []
    ensures ReadUnit(x).1 > 0
  {
  }

  lemma FirstPrintable(s: Text, afterLead: bool, r: Text)
    requires s != []
    ensures (EncodeUnits(s, afterLead) + [QUOTE] + r)[0] >= 0x20
  {
    hide EncodeUnit, IsLead, IsTrail;
    var u := s[0];
    var raw := if IsLead(u) then |s| > 1 && IsTrail(s[1]) else if IsTrail(u) then afterLead else true;
    UnitPrintable(u, raw);
    assert EncodeUnits(s, afterLead) == EncodeUnit(u, raw) + EncodeUnits(s[1..], IsLead(u));
  }

  lemma UnitPrintable(u: CodeUnit, raw: bool)
    ensures EncodeUnit(u, raw) != [] && EncodeUnit(u, raw)[0] >= 0x20
  {
  }

  /** The keys of every object are in ascending order. */
  ghost predicate KeysAscend(v: Json) {
    match v
    case Arr(items) => forall i :: 0 <= i < |items| ==> KeysAscend(items[i])
    case Obj(fields) => Ascending(KeysOf(fields)) && forall i :: 0 <= i < |fields| ==> KeysAscend(fields[i].value)
    case _ => true
  }

  /** Read from this text: the payload up to key order, keys ascending, and the rest. */
  ghost predicate ReadsAs(t: Text, v: Json, r: Text) {
    var x := ReadValue(t);
    x.Some? && x.value.rest == r && Same(v, x.value.value) && KeysAscend(x.value.value)
  }

  /** Round trip: the canonical text of a payload, whatever follows it, is a JSON text that reads as that payload up to
      key order, with the keys of each object in ascending order. */
  lemma {:induction false} CanonicalTextReadsBack(v: Json, r: Text)
    requires WellFormed(v) && Delimited(r)
    ensures ReadsAs(StableStringify(v) + r, v, r)
    decreases v, 0
  {
    hide Items, Members, EncodeUnits, SortKeys, KeysOf, Lookup, Delimited, ReadString, ReadItems, ReadMembers, ReadWord;
    var t := StableStringify(v);
    FirstTellsKind(v);
    assert (t + r)[0] == t[0];
    match v
    case Str(s) =>
      assert (t + r)[1..] == EncodeUnits(s, false) + [QUOTE] + r;
      StringReads(s, false, r);
    case Arr(items) =>
      assert (t + r)[1..] == Items(items) + ([CLOSE_BRACKET] + r);
      ItemsStart(items, r);
      if items == [] {
        assert (t + r)[2..] == (t + r)[1..][1..];
      } else {
        ItemsRead(items, r);
        ArrayReads(v, t + r);
      }
    case Obj(fields) =>
      KeysSortedIn(KeysOf(fields));
      var ks := SortKeys(KeysOf(fields));
      assert (t + r)[1..] == Members(v, ks) + ([CLOSE_BRACE] + r);
      MembersStart(v, ks, r);
      if ks == [] {
        assert (t + r)[2..] == (t + r)[1..][1..];
        NoKeys(v);
      } else {
        SortedKeysOf(v);
        MembersRead(v, ks, r);
        ObjectReads(v, t + r);
      }
    case _ => WordReads(v, r);
  }

  lemma NoKeys(v: Json)
    requires v.Obj? && SortKeys(KeysOf(v.fields)) == []
    ensures Same(v, Obj([])) && KeysAscend(Obj([]))
  {
    KeysSortedIn(KeysOf(v.fields));
    assert KeysOf([]) == [];
  }

  ghost predicate ItemsReadAs(t: Text, vs: seq<Json>, r: Text) {
    var x := ReadItems(t);
    x.Some? && x.value.rest == r && |x.value.value| == |vs|
    && forall i :: 0 <= i < |vs| ==> Same(vs[i], x.value.value[i]) && KeysAscend(x.value.value[i])
  }

  lemma ArrayReads(v: Json, x: Text)
    requires v.Arr? && |x| > 1 && x[0] == OPEN_BRACKET && x[1] != CLOSE_BRACKET
    requires ReadItems(x[1..]).Some? && ItemsReadAs(x[1..], v.items, ReadItems(x[1..]).value.rest)
    ensures ReadsAs(x, v, ReadItems(x[1..]).value.rest)
  {
    hide ReadItems;
  }

  lemma {:induction false} ItemsRead(vs: seq<Json>, r: Text)
    requires vs != [] && forall i :: 0 <= i < |vs| ==> vs[i] != Undefined && WellFormed(vs[i])
    ensures ItemsReadAs(Items(vs) + ([CLOSE_BRACKET] + r), vs, r)
    decreases vs, 1
  {
    hide StableStringify, Same, WellFormed, Items, ReadValue, KeysAscend;
    var p := AfterItem(vs, r);
    HeadItem(vs, r);
    CanonicalTextReadsBack(vs[0], p);
    var t := Items(vs) + ([CLOSE_BRACKET] + r);
    var head := ReadValue(t).value.value;
    if |vs| > 1 {
      ItemsRead(vs[1..], r);
      var tail := ReadItems(p[1..]).value.value;
      assert ReadItems(t) == Some(Reading([head] + tail, r));
      forall i | 0 < i < |vs| ensures Same(vs[i], ([head] + tail)[i]) && KeysAscend(([head] + tail)[i]) {
        assert vs[i] == vs[1..][i - 1] && ([head] + tail)[i] == tail[i - 1];
      }
    } else {
      assert ReadItems(t) == Some(Reading([head], r));
    }
  }

  ghost predicate MembersReadAs(t: Text, v: Json, ks: seq<Text>, r: Text)
    requires v.Obj? && forall k <- ks :: k in KeysOf(v.fields)
  {
    var x := ReadMembers(t);
    x.Some? && x.value.rest == r && |x.value.value| == |ks|
    && forall i :: 0 <= i < |ks| ==>
         && x.value.value[i].key == ks[i] && ks[i] in KeysOf(v.fields)
         && Same(Lookup(v.fields, ks[i]), x.value.value[i].value) && KeysAscend(x.value.value[i].value)
  }

  lemma {:induction false} MembersRead(v: Json, ks: seq<Text>, r: Text)
    requires v.Obj? && WellFormed(v) && ks != [] && forall k <- ks :: k in KeysOf(v.fields)
    ensures MembersReadAs(Members(v, ks) + ([CLOSE_BRACE] + r), v, ks, r)
    decreases v, 0, |ks|
  {
    hide StableStringify, Same, WellFormed, KeysOf, Lookup, Members, Member, ReadMember, KeysAscend;
    var p := AfterMember(v, ks, r);
    assert ks[0] in ks;
    HeadMember(v, ks, r);
    MemberReads(v, ks[0], p);
    var t := Members(v, ks) + ([CLOSE_BRACE] + r);
    var head := ReadMember(t).value.value;
    if |ks| > 1 {
      MembersRead(v, ks[1..], r);
      var tail := ReadMembers(p[1..]).value.value;
      assert ReadMembers(t) == Some(Reading([head] + tail, r));
      forall i | 0 < i < |ks|
        ensures var f := ([head] + tail)[i];
                f.key == ks[i] && ks[i] in KeysOf(v.fields) && Same(Lookup(v.fields, ks[i]), f.value)
                && KeysAscend(f.value)
      {
        assert ks[i] == ks[1..][i - 1] && ([head] + tail)[i] == tail[i - 1];
      }
    } else {
      assert ReadMembers(t) == Some(Reading([head], r));
    }
  }

  lemma MemberReads(v: Json, k: Text, p: Text)
    requires v.Obj? && WellFormed(v) && Delimited(p) && k in KeysOf(v.fields)
    ensures var x := ReadMember(Member(v, k) + p);
            x.Some? && x.value.rest == p && x.value.value.key == k
            && Same(Lookup(v.fields, k), x.value.value.value) && KeysAscend(x.value.value.value)
    decreases v, 0, 0
  {
    hide StableStringify, Same, WellFormed, KeysOf, Lookup, EncodeUnits, ReadString, ReadValue, KeysAscend;
    var a := StableStringify(Lookup(v.fields, k));
    var x := Member(v, k) + p;
    assert x[0] == QUOTE && x[1..] == EncodeUnits(k, false) + [QUOTE] + ([COLON] + (a + p));
    StringReads(k, false, [COLON] + (a + p));
    assert ([COLON] + (a + p))[1..] == a + p;
    LookupWellFormed(v.fields, k);
    LookupSmaller(v, k);
    CanonicalTextReadsBack(Lookup(v.fields, k), p);
  }

  lemma ObjectReads(v: Json, x: Text)
    requires v.Obj? && WellFormed(v) && |x| > 1 && x[0] == OPEN_BRACE && x[1] != CLOSE_BRACE
    requires forall k <- SortKeys(KeysOf(v.fields)) :: k in KeysOf(v.fields)
    requires ReadMembers(x[1..]).Some?
    requires MembersReadAs(x[1..], v, SortKeys(KeysOf(v.fields)), ReadMembers(x[1..]).value.rest)
    ensures ReadsAs(x, v, ReadMembers(x[1..]).value.rest)
  {
    hide ReadMembers, WellFormed, SortKeys, Lookup, KeysOf;
    var ks, fs := SortKeys(KeysOf(v.fields)), ReadMembers(x[1..]).value.value;
    SortedKeysOf(v);
    KeysAreFields(fs);
    assert KeysOf(fs) == ks;
    forall k | k in KeysOf(v.fields) ensures k in KeysOf(fs) && Same(Lookup(v.fields, k), Lookup(fs, k)) {
      var i :| 0 <= i < |ks| && ks[i] == k;
      LookupAt(fs, i);
    }
  }

  /** With ascending keys every field is found under its key. */
  lemma LookupAt(fields: seq<Field>, i: nat)
    requires i < |fields| && Ascending(KeysOf(fields))
    ensures fields[i].key in KeysOf(fields) && Lookup(fields, fields[i].key) == fields[i].value
  {
    hide Lookup;
    KeysAreFields(fields);
    assert KeysOf(fields)[i] in KeysOf(fields);
    var f :| f in fields && f.key == fields[i].key && f.value == Lookup(fields, fields[i].key);
    var j :| 0 <= j < |fields| && fields[j] == f;
    KeyNotBeforeItself(fields[i].key);
    assert KeysOf(fields)[j] == KeysOf(fields)[i];
  }

  lemma WordReads(v: Json, r: Text)
    requires WellFormed(v) && IsScalar(v) && Delimited(r)
    ensures ReadValue(StableStringify(v) + r) == Some(Reading(v, r))
  {
    ScalarToken(v);
    var t := StableStringify(v);
    var x := t + r;
    assert t[0] in t && x[0] == t[0];
    if v.Number? {
      NumberEnds(t, r);
      assert x[..|t|] == t && x[|t|..] == r;
    } else {
      assert !InNumber(x[0]);
      assert x[|t|..] == r;
      Letters(t, r);
    }
  }

  lemma {:induction false} NumberEnds(t: Text, r: Text)
    requires (forall u <- t :: InNumber(u)) && Delimited(r)
    ensures NumberLength(t + r) == |t|
  {
    if t == [] {
      assert t + r == r;
    } else {
      assert (t + r)[1..] == t[1..] + r;
      NumberEnds(t[1..], r);
    }
  }

  lemma Letters(t: Text, r: Text)
    requires t == NULL_TEXT || t == TRUE_TEXT || t == FALSE_TEXT || t == UNDEFINED_TEXT
    ensures Starts(t + r, "null") <==> t == NULL_TEXT
    ensures Starts(t + r, "true") <==> t == TRUE_TEXT
    ensures Starts(t + r, "false") <==> t == FALSE_TEXT
    ensures Starts(t + r, "undefined") <==> t == UNDEFINED_TEXT
  {
    assert (t + r)[0] == t[0];
    if t == NULL_TEXT { assert "null"[0] == 'n' && "null"[1] == 'u' && "null"[2] == 'l' && "null"[3] == 'l'; }
    assert "null"[0] == 'n' && "true"[0] == 't' && "false"[0] == 'f' && "undefined"[0] == 'u';
  }
}
