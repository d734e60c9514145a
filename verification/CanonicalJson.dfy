/** `canonical_json`: sorted keys, no spaces, short escapes only. Its output is an unambiguous name for the value. */
module CanonicalJson {
  import opened Prelude
  import opened SortedKeys
  import opened WitnessSets

  /** Decoded JSON. `Float` is any number that Python does not decode to an integer. */
  datatype Value =
    | Null
    | Bool(truth: bool)
    | Int(number: int)
    | Float
    | Str(text: string)
    | Arr(items: seq<Value>)
    | Obj(fields: map<string, Value>)

  // ---------------------------------------------------------------- characters, strings, numbers

  function HexDigit(n: nat): char
    requires n < 16
  {
    if n < 10 then ('0' as int + n) as char else ('a' as int + n - 10) as char
  }

  /** One character under `json.dumps(..., ensure_ascii=False)`. */
  function EscapeChar(c: char): string {
    if c == '\"' then ['\\', '\"']
    else if c == '\\' then ['\\', '\\']
    else if c == '\n' then ['\\', 'n']
    else if c == '\r' then ['\\', 'r']
    else if c == '\t' then ['\\', 't']
    else if c == '\U{8}' then ['\\', 'b']
    else if c == '\U{C}' then ['\\', 'f']
    else if c < ' ' then ['\\', 'u', '0', '0', HexDigit(c as int / 16), HexDigit(c as int % 16)]
    else [c]
  }

  function Escape(s: string): string {
    if s == "" then "" else EscapeChar(s[0]) + Escape(s[1..])
  }

  /** `_json_string`. */
  function Quote(s: string): string {
    ['\"'] + Escape(s) + ['\"']
  }

  predicate IsDigit(c: char) {
    '0' <= c <= '9'
  }

  function Digits(n: nat): (r: string)
    ensures r != "" && forall i :: 0 <= i < |r| ==> IsDigit(r[i])
  {
    if n < 10 then [HexDigit(n)] else Digits(n / 10) + [HexDigit(n % 10)]
  }

  /** `str` of an integer. */
  function IntText(n: int): string {
    if n < 0 then ['-'] + Digits(-n) else Digits(n)
  }

  // ---------------------------------------------------------------- values

  /** `",".join(parts)`. */
  function Join(parts: seq<string>): string {
    if parts == [] then "" else if |parts| == 1 then parts[0] else parts[0] + [','] + Join(parts[1..])
  }

  predicate FloatFree(v: Value) {
    match v
    case Float => false
    case Arr(items) => forall i :: 0 <= i < |items| ==> FloatFree(items[i])
    case Obj(fields) => forall k :: k in fields ==> FloatFree(fields[k])
    case _ => true
  }

  function Encode(v: Value): string
    requires FloatFree(v)
  {
    match v
    case Null => "null"
    case Bool(truth) => if truth then "true" else "false"
    case Int(number) => IntText(number)
    case Str(text) => Quote(text)
    case Arr(items) => ['['] + Join(seq(|items|, i requires 0 <= i < |items| => Encode(items[i]))) + [']']
    case Obj(fields) =>
      var keys := Sorted(fields.Keys);
      assert forall k :: k in keys ==> k in Elements(keys);
      ['{'] + Join(seq(|keys|, i requires 0 <= i < |keys| => Quote(keys[i]) + [':'] + Encode(fields[keys[i]]))) + ['}']
  }

  /** `canonical_json`: a float anywhere is an error. */
  function Canonical(v: Value): Option<string> {
    if FloatFree(v) then Some(Encode(v)) else None
  }

  // ---------------------------------------------------------------- strings are self-delimiting

  lemma EscapeCharUnique(c: char, d: char, x: string, y: string)
    requires EscapeChar(c) + x == EscapeChar(d) + y
    ensures c == d && x == y
  {
    var a, b := EscapeChar(c), EscapeChar(d);
    assert (a + x)[0] == a[0] && (b + y)[0] == b[0];
    if a[0] == '\\' {
      assert (a + x)[1] == a[1] && (b + y)[1] == b[1];
      if a[1] == 'u' {
        assert (a + x)[4] == a[4] && (b + y)[4] == b[4];
        assert (a + x)[5] == a[5] && (b + y)[5] == b[5];
        HexDigitUnique(c as int / 16, d as int / 16);
        HexDigitUnique(c as int % 16, d as int % 16);
      }
    }
    assert |a| == |b|;
    assert x == (a + x)[|a|..] && y == (b + y)[|b|..];
  }

  lemma HexDigitUnique(m: nat, n: nat)
    requires m < 16 && n < 16 && HexDigit(m) == HexDigit(n)
    ensures m == n
  {
  }

  lemma EscapeIsNoQuote(s: string, x: string)
    ensures s != "" ==> (Escape(s) + ['\"'] + x)[0] != '\"'
    ensures s == "" ==> Escape(s) + ['\"'] + x == ['\"'] + x
  {
    if s != "" {
      assert EscapeChar(s[0])[0] != '\"';
    }
  }

  lemma {:induction false} EscapeUnique(s: string, u: string, x: string, y: string)
    requires Escape(s) + ['\"'] + x == Escape(u) + ['\"'] + y
    ensures s == u && x == y
  {
    hide EscapeChar;
    if s == "" || u == "" {
      EscapeIsNoQuote(s, x);
      EscapeIsNoQuote(u, y);
      assert x == (['\"'] + x)[1..] && y == (['\"'] + y)[1..];
    } else {
      var restS, restU := Escape(s[1..]) + ['\"'] + x, Escape(u[1..]) + ['\"'] + y;
      assert Escape(s) + ['\"'] + x == EscapeChar(s[0]) + restS;
      assert Escape(u) + ['\"'] + y == EscapeChar(u[0]) + restU;
      EscapeCharUnique(s[0], u[0], restS, restU);
      EscapeUnique(s[1..], u[1..], x, y);
      assert s == [s[0]] + s[1..] && u == [u[0]] + u[1..];
    }
  }

  /** Reading one quoted string determines it and the rest of the text. */
  lemma QuoteUnique(s: string, u: string, x: string, y: string)
    requires Quote(s) + x == Quote(u) + y
    ensures s == u && x == y
  {
    hide Escape;
    assert Escape(s) + ['\"'] + x == (Quote(s) + x)[1..];
    assert Escape(u) + ['\"'] + y == (Quote(u) + y)[1..];
    EscapeUnique(s, u, x, y);
  }

  // ---------------------------------------------------------------- numbers end at the first non-digit

  /** What can follow a value in a canonical text: the end, a comma or a closing bracket. */
  predicate Delimited(rest: string) {
    rest == "" || rest[0] in {',', ']', '}'}
  }

  function DigitsValue(s: string): int {
    if s == "" then 0 else 10 * DigitsValue(s[..|s| - 1]) + (s[|s| - 1] as int - '0' as int)
  }

  lemma {:induction false} DigitsRoundTrip(n: nat)
    ensures DigitsValue(Digits(n)) == n
  {
    if n >= 10 {
      DigitsRoundTrip(n / 10);
      assert Digits(n)[..|Digits(n)| - 1] == Digits(n / 10);
    }
  }

  lemma ConcatAt(s: string, x: string, i: nat)
    requires i < |s + x|
    ensures (s + x)[i] == if i < |s| then s[i] else x[i - |s|]
  {
  }

  lemma DigitRunIsMaximal(a: string, b: string, x: string, y: string)
    requires a + x == b + y && Delimited(x) && forall i :: 0 <= i < |b| ==> IsDigit(b[i])
    ensures |b| <= |a|
  {
    if |a| < |a + x| {
      ConcatAt(a, x, |a|);
      ConcatAt(b, y, |a|);
    }
  }

  lemma DigitsUnique(m: nat, n: nat, x: string, y: string)
    requires Digits(m) + x == Digits(n) + y && Delimited(x) && Delimited(y)
    ensures m == n && x == y
  {
    var a, b := Digits(m), Digits(n);
    DigitRunIsMaximal(a, b, x, y);
    DigitRunIsMaximal(b, a, y, x);
    assert a == (a + x)[..|a|] && b == (b + y)[..|b|];
    assert x == (a + x)[|a|..] && y == (b + y)[|b|..];
    DigitsRoundTrip(m);
    DigitsRoundTrip(n);
  }

  lemma SignShows(n: int, x: string)
    ensures n < 0 <==> (IntText(n) + x)[0] == '-'
    ensures n < 0 ==> (IntText(n) + x)[1..] == Digits(-n) + x
  {
    assert (IntText(n) + x)[0] == IntText(n)[0];
    if n < 0 {
      assert (['-'] + Digits(-n) + x)[1..] == Digits(-n) + x;
    } else {
      assert IsDigit(Digits(n)[0]);
    }
  }

  lemma IntTextUnique(m: int, n: int, x: string, y: string)
    requires IntText(m) + x == IntText(n) + y && Delimited(x) && Delimited(y)
    ensures m == n && x == y
  {
    hide Digits;
    SignShows(m, x);
    SignShows(n, y);
    if m < 0 {
      DigitsUnique(-m, -n, x, y);
    } else {
      DigitsUnique(m, n, x, y);
    }
  }

  // ---------------------------------------------------------------- prefix-freeness of whole values

  /** The constructor of a value, as its first character announces it. */
  function Opening(v: Value): set<char> {
    match v
    case Null => {'n'}
    case Bool(truth) => if truth then {'t'} else {'f'}
    case Int(_) => {'-', '0', '1', '2', '3', '4', '5', '6', '7', '8', '9'}
    case Float => {}
    case Str(_) => {'\"'}
    case Arr(_) => {'['}
    case Obj(_) => {'{'}
  }

  lemma OpensWith(v: Value)
    requires FloatFree(v)
    ensures Encode(v) != "" && Encode(v)[0] in Opening(v)
  {
    if v.Int? {
      DigitsStart(if v.number < 0 then -v.number else v.number);
    }
  }

  lemma DigitsStart(n: nat)
    ensures Digits(n)[0] in {'0', '1', '2', '3', '4', '5', '6', '7', '8', '9'}
  {
    assert IsDigit(Digits(n)[0]);
  }

  lemma SameOpening(v: Value, w: Value, x: string, y: string)
    requires FloatFree(v) && FloatFree(w) && Encode(v) + x == Encode(w) + y
    ensures Opening(v) == Opening(w)
  {
    OpensWith(v);
    OpensWith(w);
    assert Encode(v)[0] == (Encode(v) + x)[0] == (Encode(w) + y)[0] == Encode(w)[0];
  }

  function ItemTexts(items: seq<Value>): (r: seq<string>)
    requires forall i :: 0 <= i < |items| ==> FloatFree(items[i])
    ensures |r| == |items|
    ensures forall i :: 0 <= i < |r| ==> r[i] == Encode(items[i])
  {
    seq(|items|, i requires 0 <= i < |items| => Encode(items[i]))
  }

  function FieldTexts(keys: seq<string>, fields: map<string, Value>): (r: seq<string>)
    requires forall i :: 0 <= i < |keys| ==> keys[i] in fields && FloatFree(fields[keys[i]])
    ensures |r| == |keys|
    ensures forall i :: 0 <= i < |r| ==> r[i] == Quote(keys[i]) + [':'] + Encode(fields[keys[i]])
  {
    seq(|keys|, i requires 0 <= i < |keys| => Quote(keys[i]) + [':'] + Encode(fields[keys[i]]))
  }

  lemma KeysAreSorted(fields: map<string, Value>)
    requires FloatFree(Obj(fields))
    ensures forall i :: 0 <= i < |Sorted(fields.Keys)| ==>
              Sorted(fields.Keys)[i] in fields && FloatFree(fields[Sorted(fields.Keys)[i]])
    ensures Encode(Obj(fields)) == ['{'] + Join(FieldTexts(Sorted(fields.Keys), fields)) + ['}']
  {
    var keys := Sorted(fields.Keys);
    forall i | 0 <= i < |keys| ensures keys[i] in fields {
      assert keys[i] in Elements(keys);
    }
    assert FieldTexts(keys, fields)
        == seq(|keys|, i requires 0 <= i < |keys| => Quote(keys[i]) + [':'] + Encode(fields[keys[i]]));
  }

  /** What follows part 0 of a joined list that ends with `close`. */
  function Rest(parts: seq<string>, close: char, x: string): string
    requires parts != []
  {
    if |parts| == 1 then [close] + x else [','] + (Join(parts[1..]) + [close] + x)
  }

  lemma JoinHead(parts: seq<string>, close: char, x: string)
    requires parts != [] && close in {']', '}'}
    ensures Join(parts) + [close] + x == parts[0] + Rest(parts, close, x)
    ensures Delimited(Rest(parts, close, x))
  {
  }

  lemma RestUnique(a: seq<string>, b: seq<string>, close: char, x: string, y: string)
    requires a != [] && b != [] && close in {']', '}'} && Rest(a, close, x) == Rest(b, close, y)
    ensures |a| == 1 <==> |b| == 1
    ensures |a| == 1 ==> x == y
    ensures |a| > 1 ==> Join(a[1..]) + [close] + x == Join(b[1..]) + [close] + y
  {
    assert Rest(a, close, x)[0] == Rest(b, close, y)[0];
    assert Rest(a, close, x)[1..] == Rest(b, close, y)[1..];
    if |a| == 1 {
      assert ([close] + x)[1..] == x && ([close] + y)[1..] == y;
    } else {
      assert Rest(a, close, x)[1..] == Join(a[1..]) + [close] + x;
      assert Rest(b, close, y)[1..] == Join(b[1..]) + [close] + y;
    }
  }

  lemma {:induction false} ItemsUnique(a: seq<Value>, b: seq<Value>, x: string, y: string)
    requires forall i :: 0 <= i < |a| ==> FloatFree(a[i])
    requires forall i :: 0 <= i < |b| ==> FloatFree(b[i])
    requires Join(ItemTexts(a)) + [']'] + x == Join(ItemTexts(b)) + [']'] + y
    ensures a == b && x == y
    decreases a, 0
  {
    ItemsStart(a, x);
    ItemsStart(b, y);
    if a != [] {
      var ta, tb := ItemTexts(a), ItemTexts(b);
      JoinHead(ta, ']', x);
      JoinHead(tb, ']', y);
      EncodeUnique(a[0], b[0], Rest(ta, ']', x), Rest(tb, ']', y));
      RestUnique(ta, tb, ']', x, y);
      if |a| > 1 {
        assert ta[1..] == ItemTexts(a[1..]) && tb[1..] == ItemTexts(b[1..]);
        ItemsUnique(a[1..], b[1..], x, y);
      }
      assert a == [a[0]] + a[1..] && b == [b[0]] + b[1..];
    }
  }

  lemma ItemsStart(a: seq<Value>, x: string)
    requires forall i :: 0 <= i < |a| ==> FloatFree(a[i])
    ensures a == [] <==> (Join(ItemTexts(a)) + [']'] + x)[0] == ']'
    ensures a == [] ==> (Join(ItemTexts(a)) + [']'] + x)[1..] == x
  {
    if a == [] {
      assert Join(ItemTexts(a)) == "";
      assert ("" + [']'] + x)[1..] == x;
    } else {
      JoinHead(ItemTexts(a), ']', x);
      OpensWith(a[0]);
      assert (Encode(a[0]) + Rest(ItemTexts(a), ']', x))[0] == Encode(a[0])[0];
    }
  }

  lemma FieldsStart(ks: seq<string>, m: map<string, Value>, x: string)
    requires forall i :: 0 <= i < |ks| ==> ks[i] in m && FloatFree(m[ks[i]])
    ensures ks == [] <==> (Join(FieldTexts(ks, m)) + ['}'] + x)[0] == '}'
    ensures ks == [] ==> (Join(FieldTexts(ks, m)) + ['}'] + x)[1..] == x
  {
    if ks == [] {
      assert Join(FieldTexts(ks, m)) == "";
      assert ("" + ['}'] + x)[1..] == x;
    } else {
      JoinHead(FieldTexts(ks, m), '}', x);
      assert (FieldTexts(ks, m)[0] + Rest(FieldTexts(ks, m), '}', x))[0] == '\"';
    }
  }

  lemma FieldHead(ks: seq<string>, m: map<string, Value>, ls: seq<string>, n: map<string, Value>, x: string, y: string)
    requires forall i :: 0 <= i < |ks| ==> ks[i] in m && FloatFree(m[ks[i]])
    requires forall i :: 0 <= i < |ls| ==> ls[i] in n && FloatFree(n[ls[i]])
    requires ks != [] && ls != []
    requires Join(FieldTexts(ks, m)) + ['}'] + x == Join(FieldTexts(ls, n)) + ['}'] + y
    ensures ks[0] == ls[0]
    ensures Encode(m[ks[0]]) + Rest(FieldTexts(ks, m), '}', x) == Encode(n[ls[0]]) + Rest(FieldTexts(ls, n), '}', y)
  {
    hide Encode, Quote, Rest, Join;
    var ta, tb := FieldTexts(ks, m), FieldTexts(ls, n);
    JoinHead(ta, '}', x);
    JoinHead(tb, '}', y);
    var ra, rb := Rest(ta, '}', x), Rest(tb, '}', y);
    assert ta[0] + ra == Quote(ks[0]) + ([':'] + (Encode(m[ks[0]]) + ra));
    assert tb[0] + rb == Quote(ls[0]) + ([':'] + (Encode(n[ls[0]]) + rb));
    QuoteUnique(ks[0], ls[0], [':'] + (Encode(m[ks[0]]) + ra), [':'] + (Encode(n[ls[0]]) + rb));
    assert ([':'] + (Encode(m[ks[0]]) + ra))[1..] == Encode(m[ks[0]]) + ra;
    assert ([':'] + (Encode(n[ls[0]]) + rb))[1..] == Encode(n[ls[0]]) + rb;
  }

  lemma {:induction false} FieldsUnique(ks: seq<string>, m: map<string, Value>, ls: seq<string>, n: map<string, Value>,
                                        x: string, y: string)
    requires forall i :: 0 <= i < |ks| ==> ks[i] in m && FloatFree(m[ks[i]])
    requires forall i :: 0 <= i < |ls| ==> ls[i] in n && FloatFree(n[ls[i]])
    requires Join(FieldTexts(ks, m)) + ['}'] + x == Join(FieldTexts(ls, n)) + ['}'] + y
    ensures ks == ls && x == y
    ensures forall i :: 0 <= i < |ks| ==> m[ks[i]] == n[ks[i]]
    decreases Obj(m), 1, |ks|
  {
    hide Encode, Quote, Rest, Join, FloatFree;
    FieldsStart(ks, m, x);
    FieldsStart(ls, n, y);
    if ks != [] {
      var ta, tb := FieldTexts(ks, m), FieldTexts(ls, n);
      FieldHead(ks, m, ls, n, x, y);
      JoinHead(ta, '}', x);
      JoinHead(tb, '}', y);
      EncodeUnique(m[ks[0]], n[ls[0]], Rest(ta, '}', x), Rest(tb, '}', y));
      RestUnique(ta, tb, '}', x, y);
      if |ks| > 1 {
        assert ta[1..] == FieldTexts(ks[1..], m) && tb[1..] == FieldTexts(ls[1..], n);
        FieldsUnique(ks[1..], m, ls[1..], n, x, y);
      }
      assert ks == [ks[0]] + ks[1..] && ls == [ls[0]] + ls[1..];
      forall i | 0 <= i < |ks| ensures m[ks[i]] == n[ks[i]] {
        if i > 0 {
          assert ks[i] == ks[1..][i - 1];
        }
      }
    }
  }

  lemma ArrBody(items: seq<Value>, x: string)
    requires FloatFree(Arr(items))
    ensures (Encode(Arr(items)) + x)[1..] == Join(ItemTexts(items)) + [']'] + x
  {
  }

  lemma ObjBody(fields: map<string, Value>, x: string)
    requires FloatFree(Obj(fields))
    ensures forall i :: 0 <= i < |Sorted(fields.Keys)| ==>
              Sorted(fields.Keys)[i] in fields && FloatFree(fields[Sorted(fields.Keys)[i]])
    ensures (Encode(Obj(fields)) + x)[1..] == Join(FieldTexts(Sorted(fields.Keys), fields)) + ['}'] + x
  {
    hide Sorted;
    KeysAreSorted(fields);
  }

  lemma WordUnique(word: string, x: string, y: string)
    requires word + x == word + y
    ensures x == y
  {
    assert x == (word + x)[|word|..] && y == (word + y)[|word|..];
  }

  lemma SameConstructor(v: Value, w: Value, x: string, y: string)
    requires FloatFree(v) && FloatFree(w) && Encode(v) + x == Encode(w) + y
    ensures v.Null? == w.Null? && v.Bool? == w.Bool? && v.Int? == w.Int? && v.Str? == w.Str? && v.Arr? == w.Arr?
    ensures v.Bool? ==> v == w
  {
    hide Encode;
    SameOpening(v, w, x, y);
    assert 'n' in Opening(v) <==> v.Null?;
    assert 'n' in Opening(w) <==> w.Null?;
    assert 't' in Opening(v) <==> v.Bool? && v.truth;
    assert 't' in Opening(w) <==> w.Bool? && w.truth;
    assert 'f' in Opening(v) <==> v.Bool? && !v.truth;
    assert 'f' in Opening(w) <==> w.Bool? && !w.truth;
    assert '-' in Opening(v) <==> v.Int?;
    assert '-' in Opening(w) <==> w.Int?;
    assert '\"' in Opening(v) <==> v.Str?;
    assert '\"' in Opening(w) <==> w.Str?;
    assert '[' in Opening(v) <==> v.Arr?;
    assert '[' in Opening(w) <==> w.Arr?;
  }

  lemma ScalarUnique(v: Value, w: Value, x: string, y: string)
    requires (v.Null? && w.Null?) || (v.Bool? && v == w) || (v.Int? && w.Int?) || (v.Str? && w.Str?)
    requires Encode(v) + x == Encode(w) + y && Delimited(x) && Delimited(y)
    ensures v == w && x == y
  {
    if v.Int? {
      IntTextUnique(v.number, w.number, x, y);
    } else if v.Str? {
      QuoteUnique(v.text, w.text, x, y);
    } else {
      WordUnique(Encode(v), x, y);
    }
  }

  /** Reading one canonical value determines it and the rest of the text. */
  lemma {:induction false} EncodeUnique(v: Value, w: Value, x: string, y: string)
    requires FloatFree(v) && FloatFree(w) && Delimited(x) && Delimited(y)
    requires Encode(v) + x == Encode(w) + y
    ensures v == w && x == y
    decreases v, 3
  {
    hide Encode, Join;
    SameConstructor(v, w, x, y);
    match v
    case Arr(items) =>
      ArrBody(items, x);
      ArrBody(w.items, y);
      ItemsUnique(items, w.items, x, y);
    case Obj(fields) => ObjUnique(fields, w.fields, x, y);
    case _ => ScalarUnique(v, w, x, y);
  }

  lemma {:induction false} ObjUnique(m: map<string, Value>, n: map<string, Value>, x: string, y: string)
    requires FloatFree(Obj(m)) && FloatFree(Obj(n))
    requires Encode(Obj(m)) + x == Encode(Obj(n)) + y
    ensures m == n && x == y
    decreases Obj(m), 2
  {
    hide Encode, Sorted, FloatFree, Join;
    ObjBody(m, x);
    ObjBody(n, y);
    FieldsUnique(Sorted(m.Keys), m, Sorted(n.Keys), n, x, y);
    SameFields(m, n);
  }

  lemma SameFields(m: map<string, Value>, n: map<string, Value>)
    requires Sorted(m.Keys) == Sorted(n.Keys)
    requires forall i :: 0 <= i < |Sorted(m.Keys)| ==>
               Sorted(m.Keys)[i] in m && Sorted(m.Keys)[i] in n && m[Sorted(m.Keys)[i]] == n[Sorted(m.Keys)[i]]
    ensures m == n
  {
    assert m.Keys == Elements(Sorted(m.Keys)) == n.Keys;
    forall k | k in m ensures m[k] == n[k] {
      assert k in Elements(Sorted(m.Keys));
      var i :| 0 <= i < |Sorted(m.Keys)| && Sorted(m.Keys)[i] == k;
    }
  }

  /** `canonical_json` is injective: equal texts come from equal values, whatever the order their keys arrived in. */
  lemma CanonicalInjective(v: Value, w: Value)
    requires Canonical(v).Some? && Canonical(v) == Canonical(w)
    ensures v == w
  {
    assert Encode(v) + "" == Encode(v) == Encode(w) == Encode(w) + "";
    EncodeUnique(v, w, "", "");
  }
}
