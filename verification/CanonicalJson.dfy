/** The canonical payload text behind every request hash: JSON with the keys of each object sorted.
    Text is a sequence of UTF-16 code units, as in JavaScript; the hash is not modelled, so a request hash is its
    canonical text. */
module CanonicalJson {

  type CodeUnit = u: int | 0 <= u < 0x10000
  type Text = seq<CodeUnit>

  /** A payload. A number is identified with the text Number::toString gives it; Undefined is what an absent
      optional field of a payload object holds. */
  datatype Json =
    | Null
    | Undefined
    | Bool(b: bool)
    | Number(text: Text)
    | Str(s: Text)
    | Arr(items: seq<Json>)
    | Obj(fields: seq<Field>)

  datatype Field = Field(key: Text, value: Json)

  const QUOTE: CodeUnit := 0x22
  const BACKSLASH: CodeUnit := 0x5C
  const COMMA: CodeUnit := 0x2C
  const COLON: CodeUnit := 0x3A
  const OPEN_BRACKET: CodeUnit := 0x5B
  const CLOSE_BRACKET: CodeUnit := 0x5D
  const OPEN_BRACE: CodeUnit := 0x7B
  const CLOSE_BRACE: CodeUnit := 0x7D
  const LETTER_U: CodeUnit := 0x75

  const NULL_TEXT: Text := [0x6E, 0x75, 0x6C, 0x6C]
  const TRUE_TEXT: Text := [0x74, 0x72, 0x75, 0x65]
  const FALSE_TEXT: Text := [0x66, 0x61, 0x6C, 0x73, 0x65]
  const UNDEFINED_TEXT: Text := [0x75, 0x6E, 0x64, 0x65, 0x66, 0x69, 0x6E, 0x65, 0x64]

  // ---- Quoted strings: RFC 8259 section 7 as JSON.stringify writes it ---------------------------------------

  predicate IsLead(u: CodeUnit) {
    0xD800 <= u < 0xDC00
  }

  predicate IsTrail(u: CodeUnit) {
    0xDC00 <= u < 0xE000
  }

  function HexDigit(d: int): CodeUnit
    requires 0 <= d < 16
  {
    if d < 10 then 0x30 + d else 0x57 + d
  }

  function HexValue(u: CodeUnit): int {
    if u < 0x3A then u - 0x30 else u - 0x57
  }

  function UnicodeEscape(u: CodeUnit): Text {
    [BACKSLASH, LETTER_U, HexDigit(u / 4096), HexDigit(u / 256 % 16), HexDigit(u / 16 % 16), HexDigit(u % 16)]
  }

  /** One code unit; `raw` is false for half of a surrogate pair standing alone. */
  function EncodeUnit(u: CodeUnit, raw: bool): Text {
    if u == 0x08 then [BACKSLASH, 0x62]
    else if u == 0x09 then [BACKSLASH, 0x74]
    else if u == 0x0A then [BACKSLASH, 0x6E]
    else if u == 0x0C then [BACKSLASH, 0x66]
    else if u == 0x0D then [BACKSLASH, 0x72]
    else if u == QUOTE || u == BACKSLASH then [BACKSLASH, u]
    else if u < 0x20 || !raw then UnicodeEscape(u)
    else [u]
  }

  function EncodeUnits(s: Text, afterLead: bool): Text {
    if s == [] then []
    else
      var u := s[0];
      var raw := if IsLead(u) then |s| > 1 && IsTrail(s[1]) else if IsTrail(u) then afterLead else true;
      EncodeUnit(u, raw) + EncodeUnits(s[1..], IsLead(u))
  }

  function Quote(s: Text): Text {
    [QUOTE] + EncodeUnits(s, false) + [QUOTE]
  }

  // ---- Key order --------------------------------------------------------------------------------------------

  /** The order of Array.prototype.sort on strings, by code units. */
  predicate KeyBefore(a: Text, b: Text) {
    b != [] && (a == [] || a[0] < b[0] || (a[0] == b[0] && KeyBefore(a[1..], b[1..])))
  }

  function InsertKey(k: Text, keys: seq<Text>): seq<Text> {
    if keys == [] || KeyBefore(k, keys[0]) then [k] + keys else [keys[0]] + InsertKey(k, keys[1..])
  }

  function SortKeys(keys: seq<Text>): seq<Text> {
    if keys == [] then [] else InsertKey(keys[0], SortKeys(keys[1..]))
  }

  function KeysOf(fields: seq<Field>): seq<Text> {
    if fields == [] then [] else [fields[0].key] + KeysOf(fields[1..])
  }

  function Lookup(fields: seq<Field>, k: Text): (v: Json)
    requires k in KeysOf(fields)
    ensures exists f <- fields :: f.key == k && f.value == v
  {
    if fields[0].key == k then fields[0].value else Lookup(fields[1..], k)
  }

  // ---- The encoding -----------------------------------------------------------------------------------------

  function StableStringify(v: Json): Text
    decreases v, 0
  {
    match v
    case Null => NULL_TEXT
    case Undefined => UNDEFINED_TEXT
    case Bool(b) => if b then TRUE_TEXT else FALSE_TEXT
    case Number(t) => t
    case Str(s) => Quote(s)
    case Arr(items) => [OPEN_BRACKET] + Items(items) + [CLOSE_BRACKET]
    case Obj(fields) =>
      KeysSortedIn(KeysOf(fields));
      [OPEN_BRACE] + Members(v, SortKeys(KeysOf(fields))) + [CLOSE_BRACE]
  }

  /** The items joined with commas; an undefined item joins as the empty text. */
  function Items(items: seq<Json>): Text
    decreases items, 0
  {
    if items == [] then []
    else
      var head := if items[0] == Undefined then [] else StableStringify(items[0]);
      if |items| == 1 then head else head + [COMMA] + Items(items[1..])
  }

  function Member(v: Json, k: Text): Text
    requires v.Obj? && k in KeysOf(v.fields)
    decreases v, 0, 0
  {
    Quote(k) + [COLON] + StableStringify(Lookup(v.fields, k))
  }

  function Members(v: Json, keys: seq<Text>): Text
    requires v.Obj? && forall k <- keys :: k in KeysOf(v.fields)
    decreases v, 0, 1, |keys|
  {
    if keys == [] then []
    else if |keys| == 1 then Member(v, keys[0])
    else Member(v, keys[0]) + [COMMA] + Members(v, keys[1..])
  }

  lemma {:induction false} KeysSortedIn(keys: seq<Text>)
    ensures forall k :: k in SortKeys(keys) <==> k in keys
    ensures |SortKeys(keys)| == |keys|
  {
    if keys != [] {
      KeysSortedIn(keys[1..]);
      InsertIn(keys[0], SortKeys(keys[1..]));
    }
  }

  lemma {:induction false} InsertIn(k: Text, keys: seq<Text>)
    ensures forall j :: j in InsertKey(k, keys) <==> j == k || j in keys
    ensures |InsertKey(k, keys)| == |keys| + 1
  {
    if !(keys == [] || KeyBefore(k, keys[0])) { InsertIn(k, keys[1..]); }
  }

  // ---- Payloads and equality up to key order ------------------------------------------------------------------

  predicate IsDigit(u: CodeUnit) {
    0x30 <= u <= 0x39
  }

  /** The shape of Number::toString on finite numbers: digits, sign, point and exponent. */
  predicate IsNumberText(t: Text) {
    t != [] && (IsDigit(t[0]) || t[0] == 0x2D)
    && forall u <- t :: IsDigit(u) || u == 0x2D || u == 0x2B || u == 0x2E || u == 0x65
  }

  ghost predicate DistinctKeys(fields: seq<Field>) {
    forall i, j :: 0 <= i < j < |fields| ==> fields[i].key != fields[j].key
  }

  /** A JSON value whose objects may also hold undefined fields. */
  ghost predicate WellFormed(v: Json)
  {
    match v
    case Number(t) => IsNumberText(t)
    case Arr(items) => forall i :: 0 <= i < |items| ==> items[i] != Undefined && WellFormed(items[i])
    case Obj(fields) => DistinctKeys(fields) && forall i :: 0 <= i < |fields| ==> WellFormed(fields[i].value)
    case _ => true
  }

  /** Equal up to the order in which objects list their keys, at every depth. */
  ghost predicate Same(v: Json, w: Json)
    decreases v
  {
    match v
    case Arr(items) => w.Arr? && |w.items| == |items| && forall i :: 0 <= i < |items| ==> Same(items[i], w.items[i])
    case Obj(fields) =>
      w.Obj? && (forall k :: k in KeysOf(fields) <==> k in KeysOf(w.fields))
      && forall k <- KeysOf(fields) :: k in KeysOf(w.fields) && Same(Lookup(fields, k), Lookup(w.fields, k))
    case _ => v == w
  }

  lemma {:induction false} KeysAreFields(fields: seq<Field>)
    ensures |KeysOf(fields)| == |fields| && forall i :: 0 <= i < |fields| ==> KeysOf(fields)[i] == fields[i].key
  {
    if fields != [] { KeysAreFields(fields[1..]); }
  }

  lemma LookupWellFormed(fields: seq<Field>, k: Text)
    requires WellFormed(Obj(fields)) && k in KeysOf(fields)
    ensures WellFormed(Lookup(fields, k))
  {
    var f :| f in fields && f.key == k && f.value == Lookup(fields, k);
    var i :| 0 <= i < |fields| && fields[i] == f;
  }

  // ---- Sorting keys ---------------------------------------------------------------------------------------------

  ghost predicate Ascending(keys: seq<Text>) {
    forall i, j :: 0 <= i < j < |keys| ==> KeyBefore(keys[i], keys[j])
  }

  lemma {:induction false} KeyOrderIsTotal(a: Text, b: Text)
    ensures KeyBefore(a, b) || a == b || KeyBefore(b, a)
    ensures !(KeyBefore(a, b) && KeyBefore(b, a)) && !KeyBefore(a, a)
  {
    if a != [] {
      if b != [] { KeyOrderIsTotal(a[1..], b[1..]); }
      KeyNotBeforeItself(a);
    }
    if a != [] && b != [] && a[0] == b[0] && a[1..] == b[1..] { assert a == [a[0]] + a[1..] == b; }
  }

  lemma {:induction false} KeyNotBeforeItself(a: Text)
    ensures !KeyBefore(a, a)
  {
    if a != [] { KeyNotBeforeItself(a[1..]); }
  }

  lemma {:induction false} KeyOrderTransitive(a: Text, b: Text, c: Text)
    requires KeyBefore(a, b) && KeyBefore(b, c)
    ensures KeyBefore(a, c)
  {
    if a != [] && a[0] == b[0] == c[0] { KeyOrderTransitive(a[1..], b[1..], c[1..]); }
  }

  lemma {:induction false} InsertKeepsOrder(k: Text, keys: seq<Text>)
    requires Ascending(keys) && k !in keys
    ensures Ascending(InsertKey(k, keys))
  {
    InsertIn(k, keys);
    if keys == [] {
    } else if KeyBefore(k, keys[0]) {
      forall i | 0 < i < |keys| ensures KeyBefore(k, keys[i]) { KeyOrderTransitive(k, keys[0], keys[i]); }
    } else {
      KeyOrderIsTotal(k, keys[0]);
      InsertKeepsOrder(k, keys[1..]);
      InsertIn(k, keys[1..]);
      var rest := InsertKey(k, keys[1..]);
      forall j | 0 <= j < |rest| ensures KeyBefore(keys[0], rest[j]) {
        assert rest[j] in rest;
      }
    }
  }

  lemma {:induction false} SortedAscending(keys: seq<Text>)
    requires forall i, j :: 0 <= i < j < |keys| ==> keys[i] != keys[j]
    ensures Ascending(SortKeys(keys))
  {
    if keys != [] {
      SortedAscending(keys[1..]);
      KeysSortedIn(keys[1..]);
      InsertKeepsOrder(keys[0], SortKeys(keys[1..]));
    }
  }

  /** A set of keys has one ascending listing. */
  lemma {:induction false} AscendingUnique(a: seq<Text>, b: seq<Text>)
    requires Ascending(a) && Ascending(b) && forall k :: k in a <==> k in b
    ensures a == b
  {
    if b != [] { SomeMember(a, b); }
    if a != [] {
      assert a[0] in a && a[0] in b;
      assert b[0] in b && b[0] in a;
      FirstIsLeast(a, b[0]);
      FirstIsLeast(b, a[0]);
      KeyOrderIsTotal(a[0], b[0]);
      TailKeys(a);
      TailKeys(b);
      AscendingUnique(a[1..], b[1..]);
    }
  }

  lemma SomeMember(a: seq<Text>, b: seq<Text>)
    requires b != [] && forall k :: k in a <==> k in b
    ensures a != []
  {
    assert b[0] in b;
  }

  lemma FirstIsLeast(a: seq<Text>, k: Text)
    requires Ascending(a) && k in a
    ensures k == a[0] || KeyBefore(a[0], k)
  {
  }

  lemma TailKeys(a: seq<Text>)
    requires Ascending(a) && a != []
    ensures Ascending(a[1..]) && forall k :: k in a[1..] <==> k in a && k != a[0]
  {
    forall k | k in a[1..] ensures k != a[0] && k in a {
      KeyNotBeforeItself(a[0]);
      var i :| 0 <= i < |a| - 1 && a[1..][i] == k;
      assert KeyBefore(a[0], a[i + 1]);
    }
    forall k | k in a && k != a[0] ensures k in a[1..] {
      var i :| 0 <= i < |a| && a[i] == k;
      assert a[1..][i - 1] == k;
    }
  }

  lemma SortedKeysOf(v: Json)
    requires v.Obj? && WellFormed(v)
    ensures Ascending(SortKeys(KeysOf(v.fields)))
    ensures forall k :: k in SortKeys(KeysOf(v.fields)) <==> k in KeysOf(v.fields)
  {
    KeysAreFields(v.fields);
    SortedAscending(KeysOf(v.fields));
    KeysSortedIn(KeysOf(v.fields));
  }

  // ---- Reading tokens back ------------------------------------------------------------------------------------------

  /** What may follow a value: nothing, a comma or a closing bracket or brace. */
  predicate Delimited(rest: Text) {
    rest == [] || IsDelimiter(rest[0])
  }

  predicate IsDelimiter(u: CodeUnit) {
    u == COMMA || u == CLOSE_BRACKET || u == CLOSE_BRACE
  }

  predicate PlainToken(t: Text) {
    t != [] && forall u <- t :: !IsDelimiter(u) && u != QUOTE && u != OPEN_BRACKET && u != OPEN_BRACE
  }

  /** Unquoted tokens end at the first delimiter. */
  lemma {:induction false} TokenPrefix(a: Text, b: Text, r1: Text, r2: Text)
    requires (forall u <- a :: !IsDelimiter(u)) && (forall u <- b :: !IsDelimiter(u))
    requires Delimited(r1) && Delimited(r2) && a + r1 == b + r2
    ensures a == b && r1 == r2
  {
    if a != [] { assert (a + r1)[0] == a[0] && a[0] in a; }
    if b != [] { assert (b + r2)[0] == b[0] && b[0] in b; }
    assert a == [] ==> a + r1 == r1;
    assert b == [] ==> b + r2 == r2;
    if a != [] && b != [] {
      assert (a + r1)[1..] == a[1..] + r1 && (b + r2)[1..] == b[1..] + r2;
      TokenPrefix(a[1..], b[1..], r1, r2);
    }
  }

  function Unescaped(u: CodeUnit): CodeUnit {
    if u == 0x62 then 0x08 else if u == 0x74 then 0x09 else if u == 0x6E then 0x0A
    else if u == 0x66 then 0x0C else if u == 0x72 then 0x0D else u
  }

  /** The code unit a quoted text starts with, and how many units spell it. */
  function ReadUnit(t: Text): (int, nat) {
    if t == [] then (0, 0)
    else if t[0] != BACKSLASH then (t[0], 1)
    else if |t| >= 6 && t[1] == LETTER_U then
      (HexValue(t[2]) * 4096 + HexValue(t[3]) * 256 + HexValue(t[4]) * 16 + HexValue(t[5]), 6)
    else if |t| >= 2 then (Unescaped(t[1]), 2)
    else (0, 1)
  }

  lemma HexInverse(d: int)
    requires 0 <= d < 16
    ensures HexValue(HexDigit(d)) == d
  {
  }

  lemma EscapeReads(u: CodeUnit, rest: Text)
    ensures ReadUnit(UnicodeEscape(u) + rest) == (u, 6)
  {
    hide HexDigit, HexValue;
    HexInverse(u / 4096);
    HexInverse(u / 256 % 16);
    HexInverse(u / 16 % 16);
    HexInverse(u % 16);
    var t := UnicodeEscape(u) + rest;
    assert t[0] == BACKSLASH && t[1] == LETTER_U && t[2] == HexDigit(u / 4096) && t[3] == HexDigit(u / 256 % 16)
        && t[4] == HexDigit(u / 16 % 16) && t[5] == HexDigit(u % 16);
    assert u / 16 == u / 256 * 16 + u / 16 % 16 && u / 256 == u / 4096 * 16 + u / 256 % 16;
    assert u == (u / 4096) * 4096 + (u / 256 % 16) * 256 + (u / 16 % 16) * 16 + u % 16;
  }

  lemma UnitReads(u: CodeUnit, raw: bool, rest: Text)
    ensures ReadUnit(EncodeUnit(u, raw) + rest) == (u, |EncodeUnit(u, raw)|)
    ensures EncodeUnit(u, raw) != [] && EncodeUnit(u, raw)[0] != QUOTE
  {
    hide UnicodeEscape, IsLead, IsTrail;
    if EncodeUnit(u, raw) == UnicodeEscape(u) { EscapeReads(u, rest); EscapeShape(u); }
  }

  lemma EscapeShape(u: CodeUnit)
    ensures |UnicodeEscape(u)| == 6 && UnicodeEscape(u)[0] == BACKSLASH
  {
  }

  /** A closing quote is never inside the encoding, so encoded units up to it determine the string. */
  lemma {:induction false} UnitsPrefix(s: Text, p: bool, t: Text, q: bool, r1: Text, r2: Text)
    requires EncodeUnits(s, p) + [QUOTE] + r1 == EncodeUnits(t, q) + [QUOTE] + r2
    ensures s == t && r1 == r2
    decreases |s|
  {
    hide EncodeUnit, ReadUnit, IsLead, IsTrail;
    var x, y := EncodeUnits(s, p) + [QUOTE] + r1, EncodeUnits(t, q) + [QUOTE] + r2;
    if s == [] && t == [] {
      assert x == [QUOTE] + r1 && y == [QUOTE] + r2;
      assert x[1..] == r1 && y[1..] == r2;
    } else if s == [] {
      assert x[0] == QUOTE;
      var _ := FirstUnit(t, q, r2);
    } else if t == [] {
      assert y[0] == QUOTE;
      var _ := FirstUnit(s, p, r1);
    } else {
      var m := FirstUnit(s, p, r1);
      var n := FirstUnit(t, q, r2);
      UnitsPrefix(s[1..], IsLead(s[0]), t[1..], IsLead(t[0]), r1, r2);
      assert s == [s[0]] + s[1..] && t == [t[0]] + t[1..];
    }
  }

  lemma FirstUnit(s: Text, p: bool, r: Text) returns (n: nat)
    requires s != []
    ensures var x := EncodeUnits(s, p) + [QUOTE] + r;
            x[0] != QUOTE && n <= |x| && ReadUnit(x) == (s[0], n)
            && x[n..] == EncodeUnits(s[1..], IsLead(s[0])) + [QUOTE] + r
  {
    hide EncodeUnit, ReadUnit;
    var u := s[0];
    var raw := if IsLead(u) then |s| > 1 && IsTrail(s[1]) else if IsTrail(u) then p else true;
    var rest := EncodeUnits(s[1..], IsLead(u)) + [QUOTE] + r;
    assert EncodeUnits(s, p) + [QUOTE] + r == EncodeUnit(u, raw) + rest;
    UnitReads(u, raw, rest);
    n := |EncodeUnit(u, raw)|;
  }

  lemma QuotePrefix(s: Text, t: Text, r1: Text, r2: Text)
    requires Quote(s) + r1 == Quote(t) + r2
    ensures s == t && r1 == r2
  {
    hide EncodeUnits;
    var x, y := Quote(s) + r1, Quote(t) + r2;
    assert x[1..] == EncodeUnits(s, false) + [QUOTE] + r1;
    assert y[1..] == EncodeUnits(t, false) + [QUOTE] + r2;
    UnitsPrefix(s, false, t, false, r1, r2);
  }

  // ---- Injectivity --------------------------------------------------------------------------------------------------

  predicate IsScalar(v: Json) {
    !v.Str? && !v.Arr? && !v.Obj?
  }

  lemma ScalarToken(v: Json)
    requires WellFormed(v) && IsScalar(v)
    ensures PlainToken(StableStringify(v))
  {
  }

  /** The first unit of an encoding tells its kind. */
  lemma FirstTellsKind(v: Json)
    requires WellFormed(v)
    ensures var t := StableStringify(v);
            && t != [] && !IsDelimiter(t[0])
            && (v.Str? <==> t[0] == QUOTE)
            && (v.Arr? <==> t[0] == OPEN_BRACKET)
            && (v.Obj? <==> t[0] == OPEN_BRACE)
  {
    hide EncodeUnits, Items, Members, SortKeys, KeysOf;
    if IsScalar(v) {
      ScalarToken(v);
      var t := StableStringify(v);
      assert t[0] in t;
    }
  }

  /** Delimiter-aware prefix lemma: two encodings that agree up to what follows them encode the same payload. */
  lemma {:induction false} ValuePrefix(v: Json, w: Json, r1: Text, r2: Text)
    requires WellFormed(v) && WellFormed(w) && Delimited(r1) && Delimited(r2)
    requires StableStringify(v) + r1 == StableStringify(w) + r2
    ensures Same(v, w) && r1 == r2
    decreases v, 0
  {
    hide Items, Members, EncodeUnits, SortKeys, KeysOf, Lookup, Delimited;
    var a, b := StableStringify(v), StableStringify(w);
    FirstTellsKind(v);
    FirstTellsKind(w);
    assert (a + r1)[0] == a[0] && (b + r2)[0] == b[0];
    match v
    case Str(s) => QuotePrefix(s, w.s, r1, r2);
    case Arr(items) =>
      assert (a + r1)[1..] == Items(items) + ([CLOSE_BRACKET] + r1);
      assert (b + r2)[1..] == Items(w.items) + ([CLOSE_BRACKET] + r2);
      ItemsPrefix(items, w.items, r1, r2);
    case Obj(fields) =>
      KeysSortedIn(KeysOf(fields));
      KeysSortedIn(KeysOf(w.fields));
      var ks, ls := SortKeys(KeysOf(fields)), SortKeys(KeysOf(w.fields));
      assert (a + r1)[1..] == Members(v, ks) + ([CLOSE_BRACE] + r1);
      assert (b + r2)[1..] == Members(w, ls) + ([CLOSE_BRACE] + r2);
      MembersPrefix(v, w, ks, ls, r1, r2);
    case _ =>
      ScalarToken(v);
      ScalarToken(w);
      TokenPrefix(a, b, r1, r2);
      SameToken(v, w);
  }

  lemma SameToken(v: Json, w: Json)
    requires WellFormed(v) && WellFormed(w) && IsScalar(v) && IsScalar(w)
    requires StableStringify(v) == StableStringify(w)
    ensures v == w
  {
  }

  lemma {:induction false} ItemsPrefix(vs: seq<Json>, ws: seq<Json>, r1: Text, r2: Text)
    requires forall i :: 0 <= i < |vs| ==> vs[i] != Undefined && WellFormed(vs[i])
    requires forall i :: 0 <= i < |ws| ==> ws[i] != Undefined && WellFormed(ws[i])
    requires Items(vs) + ([CLOSE_BRACKET] + r1) == Items(ws) + ([CLOSE_BRACKET] + r2)
    ensures |vs| == |ws| && (forall i :: 0 <= i < |vs| ==> Same(vs[i], ws[i])) && r1 == r2
    decreases vs, 1
  {
    hide StableStringify, Same, WellFormed, Items, AfterItem;
    var x, y := Items(vs) + ([CLOSE_BRACKET] + r1), Items(ws) + ([CLOSE_BRACKET] + r2);
    ItemsStart(vs, r1);
    ItemsStart(ws, r2);
    if vs != [] && ws != [] {
      var p, q := AfterItem(vs, r1), AfterItem(ws, r2);
      HeadItem(vs, r1);
      HeadItem(ws, r2);
      ValuePrefix(vs[0], ws[0], p, q);
      assert p[0] == q[0] && p[1..] == q[1..];
      if |vs| > 1 {
        ItemsPrefix(vs[1..], ws[1..], r1, r2);
        ConsSame(vs, ws);
      }
    }
  }

  lemma NoItems()
    ensures Items([]) == []
  {
  }

  /** What follows the first of some items. */
  function AfterItem(vs: seq<Json>, r: Text): Text
    requires vs != []
  {
    if |vs| == 1 then [CLOSE_BRACKET] + r else [COMMA] + (Items(vs[1..]) + ([CLOSE_BRACKET] + r))
  }

  lemma HeadItem(vs: seq<Json>, r: Text)
    requires vs != [] && vs[0] != Undefined
    ensures Items(vs) + ([CLOSE_BRACKET] + r) == StableStringify(vs[0]) + AfterItem(vs, r)
    ensures var p := AfterItem(vs, r);
            p != [] && Delimited(p) && (p[0] == COMMA <==> |vs| > 1)
            && p[1..] == if |vs| == 1 then r else Items(vs[1..]) + ([CLOSE_BRACKET] + r)
  {
    hide StableStringify;
    var head, tail := StableStringify(vs[0]), Items(vs[1..]);
    assert Items(vs) == if |vs| == 1 then head else head + [COMMA] + tail;
    hide Items;
    Regroup(head, tail, [CLOSE_BRACKET] + r);
  }

  lemma Regroup(a: Text, b: Text, c: Text)
    ensures (a + [COMMA] + b) + c == a + ([COMMA] + (b + c))
  {
  }

  function AfterMember(v: Json, ks: seq<Text>, r: Text): Text
    requires v.Obj? && ks != [] && forall k <- ks :: k in KeysOf(v.fields)
  {
    if |ks| == 1 then [CLOSE_BRACE] + r else [COMMA] + (Members(v, ks[1..]) + ([CLOSE_BRACE] + r))
  }

  lemma HeadMember(v: Json, ks: seq<Text>, r: Text)
    requires v.Obj? && ks != [] && forall k <- ks :: k in KeysOf(v.fields)
    ensures Members(v, ks) + ([CLOSE_BRACE] + r) == Member(v, ks[0]) + AfterMember(v, ks, r)
    ensures var p := AfterMember(v, ks, r);
            p != [] && Delimited(p) && (p[0] == COMMA <==> |ks| > 1)
            && p[1..] == if |ks| == 1 then r else Members(v, ks[1..]) + ([CLOSE_BRACE] + r)
  {
    hide StableStringify, Member, KeysOf;
    var head, tail := Member(v, ks[0]), Members(v, ks[1..]);
    assert Members(v, ks) == if |ks| == 1 then head else head + [COMMA] + tail;
    hide Members;
    Regroup(head, tail, [CLOSE_BRACE] + r);
  }

  lemma FirstOfConcat(a: Text, b: Text)
    requires a != []
    ensures (a + b)[0] == a[0]
  {
  }

  lemma ItemsStart(vs: seq<Json>, r: Text)
    requires forall i :: 0 <= i < |vs| ==> vs[i] != Undefined && WellFormed(vs[i])
    ensures var x := Items(vs) + ([CLOSE_BRACKET] + r);
            if vs == [] then x[0] == CLOSE_BRACKET && x[1..] == r else !IsDelimiter(x[0])
  {
    hide StableStringify, WellFormed, Items;
    if vs != [] {
      hide IsDelimiter, AfterItem;
      FirstTellsKind(vs[0]);
      HeadItem(vs, r);
      FirstOfConcat(StableStringify(vs[0]), AfterItem(vs, r));
    } else {
      NoItems();
      assert (Items(vs) + ([CLOSE_BRACKET] + r))[1..] == r;
    }
  }

  lemma ConsSame(vs: seq<Json>, ws: seq<Json>)
    requires |vs| == |ws| > 0 && Same(vs[0], ws[0])
    requires forall i :: 0 <= i < |vs| - 1 ==> Same(vs[1..][i], ws[1..][i])
    ensures forall i :: 0 <= i < |vs| ==> Same(vs[i], ws[i])
  {
    hide Same;
    forall i | 0 < i < |vs| ensures Same(vs[i], ws[i]) {
      assert vs[i] == vs[1..][i - 1] && ws[i] == ws[1..][i - 1];
    }
  }

  lemma {:induction false} MembersPrefix(v: Json, w: Json, ks: seq<Text>, ls: seq<Text>, r1: Text, r2: Text)
    requires v.Obj? && w.Obj? && WellFormed(v) && WellFormed(w)
    requires (forall k <- ks :: k in KeysOf(v.fields)) && (forall l <- ls :: l in KeysOf(w.fields))
    requires Members(v, ks) + ([CLOSE_BRACE] + r1) == Members(w, ls) + ([CLOSE_BRACE] + r2)
    ensures ks == ls && r1 == r2
    ensures forall k <- ks :: Same(Lookup(v.fields, k), Lookup(w.fields, k))
    decreases v, 0, |ks|
  {
    hide StableStringify, Same, WellFormed, KeysOf, Lookup, EncodeUnits, Members, AfterMember, Member;
    var x, y := Members(v, ks) + ([CLOSE_BRACE] + r1), Members(w, ls) + ([CLOSE_BRACE] + r2);
    MembersStart(v, ks, r1);
    MembersStart(w, ls, r2);
    if ks != [] && ls != [] {
      var p, q := AfterMember(v, ks, r1), AfterMember(w, ls, r2);
      assert ks[0] in ks && ls[0] in ls;
      HeadMember(v, ks, r1);
      HeadMember(w, ls, r2);
      MemberPrefix(v, w, ks[0], ls[0], p, q);
      assert p[0] == q[0] && p[1..] == q[1..];
      assert ks == [ks[0]] + ks[1..] && ls == [ls[0]] + ls[1..];
      if |ks| > 1 { MembersPrefix(v, w, ks[1..], ls[1..], r1, r2); }
    }
  }

  lemma MembersStart(v: Json, ks: seq<Text>, r: Text)
    requires v.Obj? && forall k <- ks :: k in KeysOf(v.fields)
    ensures var x := Members(v, ks) + ([CLOSE_BRACE] + r);
            if ks == [] then x[0] == CLOSE_BRACE && x[1..] == r else x[0] == QUOTE
  {
    hide StableStringify, KeysOf, Lookup, EncodeUnits;
    if ks != [] {
      assert ks[0] in ks;
      assert Member(v, ks[0])[0] == QUOTE;
      assert Members(v, ks)[0] == QUOTE;
    } else {
      assert (Members(v, ks) + ([CLOSE_BRACE] + r))[1..] == r;
    }
  }

  lemma MemberPrefix(v: Json, w: Json, k: Text, l: Text, p: Text, q: Text)
    requires v.Obj? && w.Obj? && WellFormed(v) && WellFormed(w) && Delimited(p) && Delimited(q)
    requires k in KeysOf(v.fields) && l in KeysOf(w.fields)
    requires Member(v, k) + p == Member(w, l) + q
    ensures k == l && p == q && Same(Lookup(v.fields, k), Lookup(w.fields, l))
    decreases v, 0, 0
  {
    hide StableStringify, Same, WellFormed, KeysOf, Lookup, Quote;
    var a, b := StableStringify(Lookup(v.fields, k)), StableStringify(Lookup(w.fields, l));
    assert Member(v, k) + p == Quote(k) + ([COLON] + (a + p));
    assert Member(w, l) + q == Quote(l) + ([COLON] + (b + q));
    QuotePrefix(k, l, [COLON] + (a + p), [COLON] + (b + q));
    assert a + p == ([COLON] + (a + p))[1..] && b + q == ([COLON] + (b + q))[1..];
    LookupWellFormed(v.fields, k);
    LookupWellFormed(w.fields, l);
    LookupSmaller(v, k);
    ValuePrefix(Lookup(v.fields, k), Lookup(w.fields, l), p, q);
  }

  lemma LookupSmaller(v: Json, k: Text)
    requires v.Obj? && k in KeysOf(v.fields)
    ensures Lookup(v.fields, k) < v
  {
  }

  // ---- Insensitivity to key order -----------------------------------------------------------------------------------

  /** Listing the keys of an object in another order, at any depth, does not change the encoding. */
  lemma {:induction false} SameEncodesSame(v: Json, w: Json)
    requires WellFormed(v) && WellFormed(w) && Same(v, w)
    ensures StableStringify(v) == StableStringify(w)
    decreases v, 0
  {
    match v
    case Arr(items) =>
      ItemsSame(items, w.items);
    case Obj(fields) =>
      SortedKeysOf(v);
      SortedKeysOf(w);
      AscendingUnique(SortKeys(KeysOf(fields)), SortKeys(KeysOf(w.fields)));
      MembersSame(v, w, SortKeys(KeysOf(fields)));
    case _ =>
  }

  lemma {:induction false} ItemsSame(vs: seq<Json>, ws: seq<Json>)
    requires |vs| == |ws| && forall i :: 0 <= i < |vs| ==> Same(vs[i], ws[i]) && WellFormed(vs[i]) && WellFormed(ws[i])
    requires forall i :: 0 <= i < |vs| ==> vs[i] != Undefined && ws[i] != Undefined
    ensures Items(vs) == Items(ws)
    decreases vs, 1
  {
    hide StableStringify, Same, WellFormed;
    if vs != [] {
      SameEncodesSame(vs[0], ws[0]);
      ItemsSame(vs[1..], ws[1..]);
    }
  }

  lemma {:induction false} MembersSame(v: Json, w: Json, ks: seq<Text>)
    requires v.Obj? && w.Obj? && WellFormed(v) && WellFormed(w) && Same(v, w)
    requires forall k <- ks :: k in KeysOf(v.fields) && k in KeysOf(w.fields)
    ensures Members(v, ks) == Members(w, ks)
    decreases v, 0, |ks|
  {
    hide StableStringify, WellFormed, KeysOf, Lookup, Quote;
    if ks != [] {
      var k := ks[0];
      LookupWellFormed(v.fields, k);
      LookupWellFormed(w.fields, k);
      LookupSmaller(v, k);
      assert Same(Lookup(v.fields, k), Lookup(w.fields, k));
      SameEncodesSame(Lookup(v.fields, k), Lookup(w.fields, k));
      MembersSame(v, w, ks[1..]);
    }
  }

  /** Two payloads have the same canonical text exactly when they are equal up to key order. */
  lemma CanonicalTextIsFaithful(v: Json, w: Json)
    requires WellFormed(v) && WellFormed(w)
    ensures StableStringify(v) == StableStringify(w) <==> Same(v, w)
  {
    hide StableStringify, Same, WellFormed;
    if StableStringify(v) == StableStringify(w) {
      ValuePrefix(v, w, [], []);
    }
    if Same(v, w) { SameEncodesSame(v, w); }
  }

  /** Outside JSON the encoding does collide: an array that holds one undefined item encodes like the empty array. */
  lemma UndefinedItemCollides()
    ensures StableStringify(Arr([Undefined])) == StableStringify(Arr([])) && !Same(Arr([Undefined]), Arr([]))
  {
    assert Items([Undefined]) == [] && Items([]) == [];
  }
}
