/** The canonical text of a JSON tree and the reader that takes it back (src/reclaim-onchain.ts). */
module CanonicalJson {
  import opened Prelude
  import opened SortedNames
  import Text

  /** A parsed number: a finite one is named by the text JavaScript prints for it; one that overflowed to an
      infinity has no JSON text of its own. */
  datatype Number = Finite(text: string) | Overflow

  datatype Json =
    | Null
    | Bool(b: bool)
    | Num(n: Number)
    | Str(s: string)
    | Arr(items: seq<Json>)
    | Obj(fields: seq<Named<Json>>)

  // --- text --------------------------------------------------------------------------------------------

  function HexChar(d: nat): char
    requires d < 16
  {
    if d < 10 then ('0' as int + d) as char else ('a' as int + d - 10) as char
  }

  function HexValue(c: char): Option<nat> {
    if '0' <= c <= '9' then Some(c as int - '0' as int)
    else if 'a' <= c <= 'f' then Some(c as int - 'a' as int + 10)
    else if 'A' <= c <= 'F' then Some(c as int - 'A' as int + 10)
    else None
  }

  /** One character as `JSON.stringify` writes it inside quotes. */
  function EscapeChar(c: char): string {
    if c == '"' then ['\\', '"']
    else if c == '\\' then ['\\', '\\']
    else if c as int == 8 then ['\\', 'b']
    else if c as int == 9 then ['\\', 't']
    else if c as int == 10 then ['\\', 'n']
    else if c as int == 12 then ['\\', 'f']
    else if c as int == 13 then ['\\', 'r']
    else if c as int < 32 then ['\\', 'u', '0', '0', HexChar(c as int / 16), HexChar(c as int % 16)]
    else [c]
  }

  function Escape(s: string): string {
    if s == "" then "" else EscapeChar(s[0]) + Escape(s[1..])
  }

  function Quote(s: string): string {
    ['"'] + Escape(s) + ['"']
  }

  function JoinItems(texts: seq<string>): string {
    if texts == [] then ""
    else if |texts| == 1 then texts[0]
    else texts[0] + "," + JoinItems(texts[1..])
  }

  function FieldText(f: Named<string>): string {
    Quote(f.name) + ":" + f.value
  }

  function JoinFields(fields: seq<Named<string>>): string {
    if fields == [] then ""
    else if |fields| == 1 then FieldText(fields[0])
    else FieldText(fields[0]) + "," + JoinFields(fields[1..])
  }

  /** `canonicalJson`: object members in the order of their sorted names, at every depth. */
  function Canonical(j: Json): string
    decreases j, 1
  {
    match j
    case Null => "null"
    case Bool(b) => if b then "true" else "false"
    case Num(Finite(text)) => text
    case Num(Overflow) => "null"
    case Str(s) => Quote(s)
    case Arr(items) => "[" + JoinItems(Texts(items)) + "]"
    case Obj(fields) => "{" + JoinFields(Sort(FieldTexts(fields))) + "}"
  }

  function Texts(items: seq<Json>): (texts: seq<string>)
    ensures |texts| == |items|
    ensures forall i :: 0 <= i < |items| ==> texts[i] == Canonical(items[i])
    decreases items, 0
  {
    if items == [] then [] else [Canonical(items[0])] + Texts(items[1..])
  }

  function FieldTexts(fields: seq<Named<Json>>): (texts: seq<Named<string>>)
    ensures |texts| == |fields|
    ensures forall i :: 0 <= i < |fields| ==> texts[i] == Named(fields[i].name, Canonical(fields[i].value))
    decreases fields, 0
  {
    if fields == [] then [] else [Named(fields[0].name, Canonical(fields[0].value))] + FieldTexts(fields[1..])
  }

  // --- strings, letter by letter -----------------------------------------------------------------------

  predicate Plain(c: char) {
    c != '"' && c != '\\' && c as int >= 32
  }

  /** A string without quotes, backslashes and control characters stands for itself between its quotes. */
  lemma {:induction false} PlainStandsForItself(s: string)
    requires forall i :: 0 <= i < |s| ==> Plain(s[i])
    ensures Canonical(Str(s)) == ['"'] + s + ['"']
  {
    if s == "" {
    } else {
      assert Plain(s[0]);
      assert forall i :: 0 <= i < |s[1..]| ==> s[1..][i] == s[i + 1];
      PlainStandsForItself(s[1..]);
      StringsJoin([s[0]], s[1..]);
      assert [s[0]] + s[1..] == s;
      assert Escape([s[0]]) == [s[0]] by { assert [s[0]][1..] == ""; }
      SlicesOfQuoted([s[0]], s[1..]);
    }
  }

  /** Every other character has one escape: seven have two letters, and the rest of the control characters are
      spelled with four digits in lower case. */
  lemma EscapesSpelledOut(c: char)
    requires !Plain(c)
    ensures Canonical(Str([c])) ==
            if c == '"' then ['"', '\\', '"', '"']
            else if c == '\\' then ['"', '\\', '\\', '"']
            else if c == '\n' then ['"', '\\', 'n', '"']
            else if c == '\r' then ['"', '\\', 'r', '"']
            else if c == '\t' then ['"', '\\', 't', '"']
            else if c as int == 8 then ['"', '\\', 'b', '"']
            else if c as int == 12 then ['"', '\\', 'f', '"']
            else ['"', '\\', 'u', '0', '0', if c as int < 16 then '0' else '1',
                  "0123456789abcdef"[c as int % 16], '"']
  {
    assert Escape([c]) == EscapeChar(c) by {
      assert [c][1..] == "" && EscapeChar(c) + "" == EscapeChar(c);
    }
    if c as int < 32 {
      HexDigit(c as int / 16);
      HexDigit(c as int % 16);
    }
  }

  lemma HexDigit(d: nat)
    requires d < 16
    ensures HexChar(d) == "0123456789abcdef"[d]
  {
    if d >= 10 { assert HexChar(d) as int == 'a' as int + d - 10; }
  }

  /** The text of a string is put together from the texts of its parts. */
  lemma {:induction false} StringsJoin(s: string, t: string)
    ensures |Canonical(Str(s))| >= 2
    ensures Canonical(Str(s + t)) == Canonical(Str(s))[..|Canonical(Str(s))| - 1] + Canonical(Str(t))[1..]
  {
    EscapeJoins(s, t);
    SlicesOfQuoted(Escape(s), Escape(t));
  }

  lemma SlicesOfQuoted(a: string, b: string)
    ensures ['"'] + (a + b) + ['"'] == (['"'] + a + ['"'])[..|a| + 1] + (['"'] + b + ['"'])[1..]
  {
    assert (['"'] + a + ['"'])[..|a| + 1] == ['"'] + a;
    assert (['"'] + b + ['"'])[1..] == b + ['"'];
  }

  /** The texts of the characters, one after the other. */
  function Each(write: char -> string, s: string): string {
    if s == "" then "" else write(s[0]) + Each(write, s[1..])
  }

  lemma {:induction false} EachJoins(write: char -> string, s: string, t: string)
    ensures Each(write, s + t) == Each(write, s) + Each(write, t)
  {
    if s == "" {
      assert s + t == t;
    } else {
      EachJoins(write, s[1..], t);
      assert (s + t)[0] == s[0] && (s + t)[1..] == s[1..] + t;
      Text.ConcatAssociates(write(s[0]), Each(write, s[1..]), Each(write, t));
    }
  }

  lemma {:induction false} EscapeIsEach(s: string)
    ensures Escape(s) == Each(EscapeChar, s)
  {
    if s == "" {
    } else {
      EscapeIsEach(s[1..]);
    }
  }

  lemma EscapeJoins(s: string, t: string)
    ensures Escape(s + t) == Escape(s) + Escape(t)
  {
    EachJoins(EscapeChar, s, t);
    EscapeIsEach(s);
    EscapeIsEach(t);
    EscapeIsEach(s + t);
  }

  // --- the normal form ---------------------------------------------------------------------------------

  /** The tree with its members sorted and its overflowing numbers read back as null. */
  function Normal(j: Json): Json
    decreases j, 1
  {
    match j
    case Num(Overflow) => Null
    case Arr(items) => Arr(Normals(items))
    case Obj(fields) => Obj(Sort(NormalFields(fields)))
    case _ => j
  }

  function Normals(items: seq<Json>): (ns: seq<Json>)
    ensures |ns| == |items|
    ensures forall i :: 0 <= i < |items| ==> ns[i] == Normal(items[i])
    decreases items, 0
  {
    if items == [] then [] else [Normal(items[0])] + Normals(items[1..])
  }

  function NormalFields(fields: seq<Named<Json>>): (ns: seq<Named<Json>>)
    ensures |ns| == |fields|
    ensures forall i :: 0 <= i < |fields| ==> ns[i] == Named(fields[i].name, Normal(fields[i].value))
    decreases fields, 0
  {
    if fields == [] then [] else [Named(fields[0].name, Normal(fields[0].value))] + NormalFields(fields[1..])
  }

  /** Sorting by name does not look at the values. */
  lemma {:induction false} FieldTextsSort(fields: seq<Named<Json>>)
    ensures FieldTexts(Sort(fields)) == Sort(FieldTexts(fields))
  {
    if fields == [] {
    } else {
      FieldTextsSort(fields[1..]);
      FieldTextsInsert(fields[0], Sort(fields[1..]));
      assert FieldTexts(fields)[1..] == FieldTexts(fields[1..]);
    }
  }

  lemma {:induction false} FieldTextsInsert(x: Named<Json>, xs: seq<Named<Json>>)
    ensures FieldTexts(Insert(x, xs)) == Insert(Named(x.name, Canonical(x.value)), FieldTexts(xs))
  {
    if !(xs == [] || Le(x.name, xs[0].name)) {
      FieldTextsInsert(x, xs[1..]);
      assert FieldTexts(xs)[1..] == FieldTexts(xs[1..]);
      assert Insert(x, xs)[1..] == Insert(x, xs[1..]);
    } else {
      assert Insert(x, xs)[1..] == xs;
    }
  }

  lemma {:induction false} NormalFieldsSort(fields: seq<Named<Json>>)
    ensures NormalFields(Sort(fields)) == Sort(NormalFields(fields))
  {
    if fields == [] {
    } else {
      NormalFieldsSort(fields[1..]);
      NormalFieldsInsert(fields[0], Sort(fields[1..]));
      assert NormalFields(fields)[1..] == NormalFields(fields[1..]);
    }
  }

  lemma {:induction false} NormalFieldsInsert(x: Named<Json>, xs: seq<Named<Json>>)
    ensures NormalFields(Insert(x, xs)) == Insert(Named(x.name, Normal(x.value)), NormalFields(xs))
  {
    if !(xs == [] || Le(x.name, xs[0].name)) {
      NormalFieldsInsert(x, xs[1..]);
      assert NormalFields(xs)[1..] == NormalFields(xs[1..]);
      assert Insert(x, xs)[1..] == Insert(x, xs[1..]);
    } else {
      assert Insert(x, xs)[1..] == xs;
    }
  }

  /** Normalising does not change the canonical text. */
  lemma {:induction false} CanonicalOfNormal(j: Json)
    ensures Canonical(Normal(j)) == Canonical(j)
    decreases j
  {
    match j
    case Arr(items) =>
      forall i | 0 <= i < |items| ensures Canonical(Normal(items[i])) == Canonical(items[i]) {
        CanonicalOfNormal(items[i]);
      }
      assert Texts(Normals(items)) == Texts(items);
    case Obj(fields) =>
      forall i | 0 <= i < |fields| ensures Canonical(Normal(fields[i].value)) == Canonical(fields[i].value) {
        CanonicalOfNormal(fields[i].value);
      }
      assert FieldTexts(NormalFields(fields)) == FieldTexts(fields);
      FieldTextsSort(NormalFields(fields));
      SortInOrder(FieldTexts(fields));
      SortOrdered(Sort(FieldTexts(fields)));
    case _ =>
  }

  // --- the reader --------------------------------------------------------------------------------------

  predicate NumberChar(c: char) {
    '0' <= c <= '9' || c == '-' || c == '+' || c == '.' || c == 'e' || c == 'E'
  }

  /** How many leading characters of the text belong to a number. */
  function NumberLength(s: string): (n: nat)
    ensures n <= |s|
  {
    if s != "" && NumberChar(s[0]) then 1 + NumberLength(s[1..]) else 0
  }

  /** Characters up to the closing quote, with escapes undone. */
  function ReadChars(s: string): (r: Option<(string, string)>)
    ensures r.Some? ==> |r.value.1| < |s|
    decreases |s|
  {
    if s == "" then None
    else if s[0] == '"' then Some(("", s[1..]))
    else if s[0] == '\\' then ReadEscape(s)
    else if s[0] as int < 32 then None
    else match ReadChars(s[1..])
      case None => None
      case Some((chars, rest)) => Some(([s[0]] + chars, rest))
  }

  function ReadEscape(s: string): (r: Option<(string, string)>)
    requires s != ""
    ensures r.Some? ==> |r.value.1| < |s|
    decreases |s|, 0
  {
    if |s| < 2 then None
    else if s[1] == 'u' then
      (if |s| < 6 then None
       else match (HexValue(s[2]), HexValue(s[3]), HexValue(s[4]), HexValue(s[5]))
         case (Some(a), Some(b), Some(c), Some(d)) =>
           var code := ((a * 16 + b) * 16 + c) * 16 + d;
           if 0xD800 <= code < 0xE000 then None
           else (match ReadChars(s[6..])
                 case None => None
                 case Some((chars, rest)) => Some(([code as char] + chars, rest)))
         case _ => None)
    else match SimpleEscape(s[1])
      case None => None
      case Some(c) =>
        match ReadChars(s[2..])
        case None => None
        case Some((chars, rest)) => Some(([c] + chars, rest))
  }

  function SimpleEscape(c: char): Option<char> {
    if c == '"' || c == '\\' || c == '/' then Some(c)
    else if c == 'b' then Some(8 as char)
    else if c == 't' then Some(9 as char)
    else if c == 'n' then Some(10 as char)
    else if c == 'f' then Some(12 as char)
    else if c == 'r' then Some(13 as char)
    else None
  }

  /** Reads one value off the front of a text without white space; `number` says what a numeral denotes. */
  function ReadValue(number: string -> Number, s: string): (r: Option<(Json, string)>)
    ensures r.Some? ==> |r.value.1| < |s|
    decreases |s|, 0
  {
    if s == "" then None
    else if s[0] == 'n' then (if |s| >= 4 && s[..4] == "null" then Some((Null, s[4..])) else None)
    else if s[0] == 't' then (if |s| >= 4 && s[..4] == "true" then Some((Bool(true), s[4..])) else None)
    else if s[0] == 'f' then (if |s| >= 5 && s[..5] == "false" then Some((Bool(false), s[5..])) else None)
    else if s[0] == '"' then
      (match ReadChars(s[1..])
       case None => None
       case Some((chars, rest)) => Some((Str(chars), rest)))
    else if s[0] == '[' then
      (if |s| >= 2 && s[1] == ']' then Some((Arr([]), s[2..]))
       else match ReadItems(number, s[1..])
         case None => None
         case Some((items, rest)) => Some((Arr(items), rest)))
    else if s[0] == '{' then
      (if |s| >= 2 && s[1] == '}' then Some((Obj([]), s[2..]))
       else match ReadFields(number, s[1..])
         case None => None
         case Some((fields, rest)) => Some((Obj(fields), rest)))
    else if NumberLength(s) > 0 then Some((Num(number(s[..NumberLength(s)])), s[NumberLength(s)..]))
    else None
  }

  /** One or more values separated by commas, up to the closing bracket. */
  function ReadItems(number: string -> Number, s: string): (r: Option<(seq<Json>, string)>)
    ensures r.Some? ==> |r.value.1| < |s|
    decreases |s|, 1
  {
    match ReadValue(number, s)
    case None => None
    case Some((item, rest)) =>
      if rest != "" && rest[0] == ']' then Some(([item], rest[1..]))
      else if rest != "" && rest[0] == ',' then
        (match ReadItems(number, rest[1..])
         case None => None
         case Some((items, rest')) => Some(([item] + items, rest')))
      else None
  }

  /** One or more members separated by commas, up to the closing brace. */
  function ReadFields(number: string -> Number, s: string): (r: Option<(seq<Named<Json>>, string)>)
    ensures r.Some? ==> |r.value.1| < |s|
    decreases |s|, 1
  {
    if s == "" || s[0] != '"' then None
    else match ReadChars(s[1..])
      case None => None
      case Some((name, afterName)) =>
        if afterName == "" || afterName[0] != ':' then None
        else match ReadValue(number, afterName[1..])
          case None => None
          case Some((value, rest)) =>
            if rest != "" && rest[0] == '}' then Some(([Named(name, value)], rest[1..]))
            else if rest != "" && rest[0] == ',' then
              (match ReadFields(number, rest[1..])
               case None => None
               case Some((fields, rest')) => Some(([Named(name, value)] + fields, rest')))
            else None
  }

  function Parse(number: string -> Number, s: string): Option<Json> {
    match ReadValue(number, s)
    case None => None
    case Some((j, rest)) => if rest == "" then Some(j) else None
  }

  // --- reading back what was written -------------------------------------------------------------------

  /** What a parsed tree looks like: numbers print as numerals that denote them, names are distinct. */
  ghost predicate Parsed(number: string -> Number, j: Json)
    decreases j
  {
    match j
    case Num(Finite(text)) =>
      && text != "" && (forall i :: 0 <= i < |text| ==> NumberChar(text[i]))
      && ('0' <= text[0] <= '9' || text[0] == '-') && number(text) == Finite(text)
    case Arr(items) => forall i :: 0 <= i < |items| ==> Parsed(number, items[i])
    case Obj(fields) =>
      DistinctNames(fields) && forall i :: 0 <= i < |fields| ==> Parsed(number, fields[i].value)
    case _ => true
  }

  lemma {:induction false} ReadEscaped(s: string, rest: string)
    ensures ReadChars(Escape(s) + ['"'] + rest) == Some((s, rest))
    decreases |s|
  {
    var text := Escape(s) + ['"'] + rest;
    if s == "" {
      assert text == ['"'] + rest;
    } else {
      ReadEscaped(s[1..], rest);
      var tail := Escape(s[1..]) + ['"'] + rest;
      assert text == EscapeChar(s[0]) + tail;
      ReadOneChar(s[0], tail);
      assert [s[0]] + s[1..] == s;
    }
  }

  /** An escaped character reads back as itself, in front of whatever follows. */
  lemma ReadOneChar(c: char, tail: string)
    ensures ReadChars(EscapeChar(c) + tail)
            == match ReadChars(tail) case None => None case Some((chars, rest)) => Some(([c] + chars, rest))
  {
    var e := EscapeChar(c);
    var text := e + tail;
    assert text[|e|..] == tail;
    if |e| == 6 {
      var n := c as int;
      assert HexValue('0') == Some(0);
      assert HexValue(HexChar(n / 16)) == Some(n / 16) && HexValue(HexChar(n % 16)) == Some(n % 16);
      assert ((0 * 16 + 0) * 16 + n / 16) * 16 + n % 16 == n;
    } else if |e| == 2 {
      assert SimpleEscape(text[1]) == Some(c);
    }
  }

  predicate Delimited(rest: string) {
    rest == "" || !NumberChar(rest[0])
  }

  /** A value reads back in its normal form from in front of anything that cannot extend a number. */
  ghost predicate ReadsBack(number: string -> Number, j: Json) {
    forall rest :: Delimited(rest) ==> ReadValue(number, Canonical(j) + rest) == Some((Normal(j), rest))
  }

  lemma {:induction false} NumberLengthOf(text: string, rest: string)
    requires (forall i :: 0 <= i < |text| ==> NumberChar(text[i])) && Delimited(rest)
    ensures NumberLength(text + rest) == |text|
  {
    if text == "" {
      assert text + rest == rest;
    } else {
      NumberLengthOf(text[1..], rest);
      assert (text + rest)[1..] == text[1..] + rest;
    }
  }

  /** One more value in front of a list that reads back. */
  lemma ReadOneItem(number: string -> Number, item: Json, after: string)
    requires ReadsBack(number, item) && after != "" && (after[0] == ',' || after[0] == ']')
    ensures ReadItems(number, Canonical(item) + after)
            == if after[0] == ']' then Some(([Normal(item)], after[1..]))
               else match ReadItems(number, after[1..])
                 case None => None
                 case Some((items, rest)) => Some(([Normal(item)] + items, rest))
  {
    assert Delimited(after);
    assert ReadValue(number, Canonical(item) + after) == Some((Normal(item), after));
  }

  lemma JoinSplits(texts: seq<string>, close: string)
    requires texts != []
    ensures JoinItems(texts) + close
            == if |texts| == 1 then texts[0] + close
               else texts[0] + ("," + (JoinItems(texts[1..]) + close))
  {
    JoinAround(texts[0], JoinItems(texts[1..]), close);
  }

  lemma {:induction false} ReadsBackItems(number: string -> Number, items: seq<Json>, close: string)
    requires items != [] && close != "" && close[0] == ']'
    requires forall i :: 0 <= i < |items| ==> ReadsBack(number, items[i])
    ensures ReadItems(number, JoinItems(Texts(items)) + close) == Some((Normals(items), close[1..]))
    decreases |items|
  {
    JoinSplits(Texts(items), close);
    if |items| == 1 {
      ReadOneItem(number, items[0], close);
      assert Normals(items) == [Normal(items[0])];
    } else {
      var tail := JoinItems(Texts(items[1..])) + close;
      assert Texts(items)[1..] == Texts(items[1..]);
      ReadsBackItems(number, items[1..], close);
      assert ("," + tail)[1..] == tail;
      ReadOneItem(number, items[0], "," + tail);
    }
  }

  /** One more member in front of a list that reads back. */
  lemma ReadOneField(number: string -> Number, f: Named<Json>, after: string)
    requires ReadsBack(number, f.value) && after != "" && (after[0] == ',' || after[0] == '}')
    ensures var read := ReadFields(number, FieldText(Named(f.name, Canonical(f.value))) + after);
            var here := Named(f.name, Normal(f.value));
            read == if after[0] == '}' then Some(([here], after[1..]))
                    else match ReadFields(number, after[1..])
                      case None => None
                      case Some((fields, rest)) => Some(([here] + fields, rest))
  {
    var afterName := ":" + (Canonical(f.value) + after);
    FieldTextSplits(f.name, Canonical(f.value), after);
    ReadEscaped(f.name, afterName);
    assert afterName[1..] == Canonical(f.value) + after;
    assert Delimited(after);
    assert ReadValue(number, Canonical(f.value) + after) == Some((Normal(f.value), after));
  }

  lemma FieldTextSplits(name: string, value: string, after: string)
    ensures var text := FieldText(Named(name, value)) + after;
            text[0] == '"' && text[1..] == Escape(name) + ['"'] + (":" + (value + after))
  {
  }

  lemma JoinFieldsSplits(fields: seq<Named<string>>, close: string)
    requires fields != []
    ensures JoinFields(fields) + close
            == if |fields| == 1 then FieldText(fields[0]) + close
               else FieldText(fields[0]) + ("," + (JoinFields(fields[1..]) + close))
  {
    JoinAround(FieldText(fields[0]), JoinFields(fields[1..]), close);
  }

  lemma JoinAround(first: string, rest: string, close: string)
    ensures first + "," + rest + close == first + ("," + (rest + close))
  {
  }

  lemma {:induction false} ReadsBackFields(number: string -> Number, fields: seq<Named<Json>>, close: string)
    requires fields != [] && close != "" && close[0] == '}'
    requires forall i :: 0 <= i < |fields| ==> ReadsBack(number, fields[i].value)
    ensures ReadFields(number, JoinFields(FieldTexts(fields)) + close) == Some((NormalFields(fields), close[1..]))
    decreases |fields|
  {
    JoinFieldsSplits(FieldTexts(fields), close);
    if |fields| == 1 {
      ReadOneField(number, fields[0], close);
      assert NormalFields(fields) == [Named(fields[0].name, Normal(fields[0].value))];
    } else {
      var tail := JoinFields(FieldTexts(fields[1..])) + close;
      assert FieldTexts(fields)[1..] == FieldTexts(fields[1..]);
      ReadsBackFields(number, fields[1..], close);
      assert ("," + tail)[1..] == tail;
      ReadOneField(number, fields[0], "," + tail);
    }
  }

  lemma ReadsBackArray(number: string -> Number, items: seq<Json>)
    requires forall i :: 0 <= i < |items| ==> ReadsBack(number, items[i])
    ensures ReadsBack(number, Arr(items))
  {
    forall rest: string | Delimited(rest)
      ensures ReadValue(number, Canonical(Arr(items)) + rest) == Some((Normal(Arr(items)), rest))
    {
      ReadArray(number, items, rest);
    }
  }

  lemma ReadArray(number: string -> Number, items: seq<Json>, rest: string)
    requires forall i :: 0 <= i < |items| ==> ReadsBack(number, items[i])
    ensures ReadValue(number, Canonical(Arr(items)) + rest) == Some((Arr(Normals(items)), rest))
  {
    if items == [] {
      var text := Canonical(Arr(items)) + rest;
      assert text == "[]" + rest && text[2..] == rest;
    } else {
      var close := "]" + rest;
      var inner := JoinItems(Texts(items)) + close;
      assert Canonical(Arr(items)) + rest == "[" + inner;
      FirstOfItems(number, items);
      assert inner[0] == JoinItems(Texts(items))[0];
      ReadBracket(number, inner);
      ReadsBackItems(number, items, close);
      assert close[1..] == rest;
    }
  }

  lemma ReadBracket(number: string -> Number, inner: string)
    requires inner != "" && inner[0] != ']'
    ensures ReadValue(number, "[" + inner)
            == match ReadItems(number, inner) case None => None case Some((items, rest)) => Some((Arr(items), rest))
  {
    assert ("[" + inner)[1..] == inner && ("[" + inner)[1] == inner[0];
  }

  lemma ReadBrace(number: string -> Number, inner: string)
    requires inner != "" && inner[0] != '}'
    ensures ReadValue(number, "{" + inner)
            == match ReadFields(number, inner) case None => None case Some((fields, rest)) => Some((Obj(fields), rest))
  {
    assert ("{" + inner)[1..] == inner && ("{" + inner)[1] == inner[0];
  }

  /** No canonical text starts with a closing bracket. */
  lemma FirstOfItems(number: string -> Number, items: seq<Json>)
    requires items != [] && ReadsBack(number, items[0])
    ensures JoinItems(Texts(items)) != "" && JoinItems(Texts(items))[0] != ']'
  {
    var first := Canonical(items[0]);
    assert ReadValue(number, first + "") == Some((Normal(items[0]), ""));
    assert first + "" == first;
    assert NumberLength(first) > 0 ==> NumberChar(first[0]);
    assert JoinItems(Texts(items))[..|first|] == first;
  }

  /** Sorted members read back as the members of the normal form. */
  lemma SortedFieldsReadBack(number: string -> Number, fields: seq<Named<Json>>, close: string)
    requires fields != [] && close != "" && close[0] == '}'
    requires forall i :: 0 <= i < |fields| ==> ReadsBack(number, fields[i].value)
    ensures ReadFields(number, JoinFields(Sort(FieldTexts(fields))) + close)
            == Some((Sort(NormalFields(fields)), close[1..]))
  {
    var sorted := Sort(fields);
    FieldTextsSort(fields);
    NormalFieldsSort(fields);
    SortMembers(fields);
    forall i | 0 <= i < |sorted| ensures ReadsBack(number, sorted[i].value) {
      assert sorted[i] in sorted && sorted[i] in fields;
      var k :| 0 <= k < |fields| && fields[k] == sorted[i];
    }
    ReadsBackFields(number, sorted, close);
  }

  lemma ReadsBackObject(number: string -> Number, fields: seq<Named<Json>>)
    requires forall i :: 0 <= i < |fields| ==> ReadsBack(number, fields[i].value)
    ensures ReadsBack(number, Obj(fields))
  {
    forall rest: string | Delimited(rest)
      ensures ReadValue(number, Canonical(Obj(fields)) + rest) == Some((Normal(Obj(fields)), rest))
    {
      ReadObject(number, fields, rest);
    }
  }

  lemma ReadObject(number: string -> Number, fields: seq<Named<Json>>, rest: string)
    requires forall i :: 0 <= i < |fields| ==> ReadsBack(number, fields[i].value)
    ensures ReadValue(number, Canonical(Obj(fields)) + rest) == Some((Obj(Sort(NormalFields(fields))), rest))
  {
    if fields == [] {
      var text := Canonical(Obj(fields)) + rest;
      assert text == "{}" + rest && text[2..] == rest;
    } else {
      var close := "}" + rest;
      var members := JoinFields(Sort(FieldTexts(fields)));
      assert Canonical(Obj(fields)) + rest == "{" + (members + close);
      assert members[0] == '"' && (members + close)[0] == '"';
      ReadBrace(number, members + close);
      SortedFieldsReadBack(number, fields, close);
      assert close[1..] == rest;
    }
  }

  lemma ReadsBackLeaf(number: string -> Number, j: Json)
    requires Parsed(number, j) && !j.Arr? && !j.Obj?
    ensures ReadsBack(number, j)
  {
    forall rest: string | Delimited(rest)
      ensures ReadValue(number, Canonical(j) + rest) == Some((Normal(j), rest))
    {
      var text := Canonical(j) + rest;
      assert text[|Canonical(j)|..] == rest && text[..|Canonical(j)|] == Canonical(j);
      match j
      case Num(Finite(numeral)) => NumberLengthOf(numeral, rest);
      case Str(s) =>
        assert text[1..] == Escape(s) + ['"'] + rest;
        ReadEscaped(s, rest);
      case _ =>
    }
  }

  lemma {:induction false} EveryTreeReadsBack(number: string -> Number, j: Json)
    requires Parsed(number, j)
    ensures ReadsBack(number, j)
    decreases j
  {
    match j
    case Arr(items) =>
      forall i | 0 <= i < |items| ensures ReadsBack(number, items[i]) { EveryTreeReadsBack(number, items[i]); }
      ReadsBackArray(number, items);
    case Obj(fields) =>
      forall i | 0 <= i < |fields| ensures ReadsBack(number, fields[i].value) {
        EveryTreeReadsBack(number, fields[i].value);
      }
      ReadsBackObject(number, fields);
    case _ => ReadsBackLeaf(number, j);
  }

  /** Reading a canonical text gives the normal form, and canonicalising that again changes nothing. */
  lemma CanonicalRoundTrip(number: string -> Number, j: Json)
    requires Parsed(number, j)
    ensures Parse(number, Canonical(j)) == Some(Normal(j))
    ensures Canonical(Parse(number, Canonical(j)).value) == Canonical(j)
  {
    EveryTreeReadsBack(number, j);
    assert ReadValue(number, Canonical(j) + "") == Some((Normal(j), ""));
    assert Canonical(j) + "" == Canonical(j);
    CanonicalOfNormal(j);
  }

  // --- equality up to member order ---------------------------------------------------------------------

  function Lookup(fields: seq<Named<Json>>, name: string): (r: Option<Json>)
    ensures r.Some? ==> exists k :: 0 <= k < |fields| && fields[k] == Named(name, r.value)
    ensures r.None? ==> forall k :: 0 <= k < |fields| ==> fields[k].name != name
  {
    if fields == [] then None
    else if fields[0].name == name then Some(fields[0].value)
    else
      var r := Lookup(fields[1..], name);
      assert forall k :: 0 <= k < |fields[1..]| ==> fields[1..][k] == fields[k + 1];
      r
  }

  /** Leaves that print alike: the same leaf, or null and an overflowing number in either order. */
  predicate PrintAlike(a: Json, b: Json) {
    a == b || ((a == Null || a == Num(Overflow)) && (b == Null || b == Num(Overflow)))
  }

  /** Equal at every leaf and up to the order of members at every depth; with `asPrinted`, leaves that print
      alike count as equal. */
  ghost predicate Equal(a: Json, b: Json, asPrinted: bool)
    decreases a
  {
    match (a, b)
    case (Arr(xs), Arr(ys)) => |xs| == |ys| && forall i :: 0 <= i < |xs| ==> Equal(xs[i], ys[i], asPrinted)
    case (Obj(xs), Obj(ys)) =>
      && |xs| == |ys|
      && forall i :: 0 <= i < |xs| ==>
           Lookup(ys, xs[i].name).Some? && Equal(xs[i].value, Lookup(ys, xs[i].name).value, asPrinted)
    case _ => !a.Arr? && !b.Arr? && !a.Obj? && !b.Obj? && (a == b || (asPrinted && PrintAlike(a, b)))
  }

  /** Two normal forms agree exactly when the trees are equal up to member order and what prints alike. */
  lemma {:induction false} NormalIsEqual(number: string -> Number, a: Json, b: Json)
    requires Parsed(number, a) && Parsed(number, b)
    ensures Normal(a) == Normal(b) <==> Equal(a, b, true)
    decreases a
  {
    match (a, b)
    case (Arr(xs), Arr(ys)) =>
      forall i | 0 <= i < |xs| && i < |ys| ensures Normal(xs[i]) == Normal(ys[i]) <==> Equal(xs[i], ys[i], true) {
        NormalIsEqual(number, xs[i], ys[i]);
      }
      NormalArrays(xs, ys);
    case (Obj(xs), Obj(ys)) =>
      forall i | 0 <= i < |xs| && Lookup(ys, xs[i].name).Some?
        ensures Normal(xs[i].value) == Normal(Lookup(ys, xs[i].name).value)
                <==> Equal(xs[i].value, Lookup(ys, xs[i].name).value, true)
      {
        NormalIsEqual(number, xs[i].value, Lookup(ys, xs[i].name).value);
      }
      NormalObjects(xs, ys);
    case _ =>
  }

  lemma NormalArrays(xs: seq<Json>, ys: seq<Json>)
    requires forall i :: 0 <= i < |xs| && i < |ys| ==>
               (Normal(xs[i]) == Normal(ys[i]) <==> Equal(xs[i], ys[i], true))
    ensures Normals(xs) == Normals(ys) <==> Equal(Arr(xs), Arr(ys), true)
  {
    if Normals(xs) == Normals(ys) {
      assert |xs| == |Normals(xs)| == |ys|;
      forall i | 0 <= i < |xs| ensures Normal(xs[i]) == Normal(ys[i]) {
        assert Normals(xs)[i] == Normals(ys)[i];
      }
    }
  }

  lemma {:induction false} NormalObjects(xs: seq<Named<Json>>, ys: seq<Named<Json>>)
    requires DistinctNames(xs) && DistinctNames(ys)
    requires forall i :: 0 <= i < |xs| && Lookup(ys, xs[i].name).Some? ==>
               (Normal(xs[i].value) == Normal(Lookup(ys, xs[i].name).value)
                <==> Equal(xs[i].value, Lookup(ys, xs[i].name).value, true))
    ensures Sort(NormalFields(xs)) == Sort(NormalFields(ys)) <==> Equal(Obj(xs), Obj(ys), true)
  {
    assert Matches(xs, ys) <==> Equal(Obj(xs), Obj(ys), true) by { MatchesIsEqual(xs, ys); }
    if Sort(NormalFields(xs)) == Sort(NormalFields(ys)) { SameSortedMembers(xs, ys); }
    if Matches(xs, ys) { MatchedMembersSortAlike(xs, ys); }
  }

  lemma {:induction false} MatchesIsEqual(xs: seq<Named<Json>>, ys: seq<Named<Json>>)
    requires forall i :: 0 <= i < |xs| && Lookup(ys, xs[i].name).Some? ==>
               (Normal(xs[i].value) == Normal(Lookup(ys, xs[i].name).value)
                <==> Equal(xs[i].value, Lookup(ys, xs[i].name).value, true))
    ensures Matches(xs, ys) <==> Equal(Obj(xs), Obj(ys), true)
  {
  }

  /** Every member of the one has a member of the same name and normal form in the other. */
  ghost predicate Matches(xs: seq<Named<Json>>, ys: seq<Named<Json>>) {
    |xs| == |ys|
    && forall i :: 0 <= i < |xs| ==>
         Lookup(ys, xs[i].name).Some? && Normal(xs[i].value) == Normal(Lookup(ys, xs[i].name).value)
  }

  lemma LookupIsUnique(fields: seq<Named<Json>>, k: nat)
    requires DistinctNames(fields) && k < |fields|
    ensures Lookup(fields, fields[k].name) == Some(fields[k].value)
  {
  }

  lemma SameSortedMembers(xs: seq<Named<Json>>, ys: seq<Named<Json>>)
    requires DistinctNames(ys) && Sort(NormalFields(xs)) == Sort(NormalFields(ys))
    ensures Matches(xs, ys)
  {
    SortMembers(NormalFields(xs));
    SortMembers(NormalFields(ys));
    assert |Sort(NormalFields(xs))| == |xs| && |Sort(NormalFields(ys))| == |ys|;
    forall i | 0 <= i < |xs|
      ensures Lookup(ys, xs[i].name).Some? && Normal(xs[i].value) == Normal(Lookup(ys, xs[i].name).value)
    {
      assert NormalFields(xs)[i] in NormalFields(xs);
      assert NormalFields(xs)[i] in NormalFields(ys);
      var k :| 0 <= k < |ys| && NormalFields(ys)[k] == NormalFields(xs)[i];
      LookupIsUnique(ys, k);
    }
  }

  lemma MatchedMembersSortAlike(xs: seq<Named<Json>>, ys: seq<Named<Json>>)
    requires DistinctNames(xs) && DistinctNames(ys) && Matches(xs, ys)
    ensures Sort(NormalFields(xs)) == Sort(NormalFields(ys))
  {
    var nx, ny := NormalFields(xs), NormalFields(ys);
    assert DistinctNames(nx) && DistinctNames(ny);
    forall x | x in nx ensures x in ny {
      var i :| 0 <= i < |nx| && nx[i] == x;
      var k :| 0 <= k < |ys| && ys[k] == Named(xs[i].name, Lookup(ys, xs[i].name).value);
      assert ny[k] == x;
    }
    SubsetOfSameSize(nx, ny);
    SortMembers(nx);
    SortMembers(ny);
    SortInOrder(nx);
    SortInOrder(ny);
    SortDistinct(nx);
    SortDistinct(ny);
    SortedIsUnique(Sort(nx), Sort(ny));
  }

  /** Distinctly named entries included in equally many others are all of them. */
  lemma SubsetOfSameSize(xs: seq<Named<Json>>, ys: seq<Named<Json>>)
    requires DistinctNames(xs) && DistinctNames(ys) && |xs| == |ys|
    requires forall x :: x in xs ==> x in ys
    ensures forall y :: y in ys ==> y in xs
  {
    var sx, sy := set x | x in xs, set y | y in ys;
    SetSize(xs);
    SetSize(ys);
    assert sx <= sy;
    SameSizeSubset(sx, sy);
    forall y | y in ys ensures y in xs { assert y in sy; }
  }

  lemma SameSizeSubset<T>(a: set<T>, b: set<T>)
    requires a <= b && |a| == |b|
    ensures a == b
  {
    assert |b - a| == 0;
    assert b == a + (b - a);
  }

  lemma {:induction false} SetSize(xs: seq<Named<Json>>)
    requires DistinctNames(xs)
    ensures |set x | x in xs| == |xs|
  {
    if xs == [] {
    } else {
      SetSize(xs[1..]);
      var rest := set x | x in xs[1..];
      assert (set x | x in xs) == rest + {xs[0]};
      TailMember(xs, xs[0]);
    }
  }

  /** Two trees have the same canonical text exactly when they are equal up to member order, counting an
      overflowing number as null. */
  lemma CanonicalTextDecides(number: string -> Number, a: Json, b: Json)
    requires Parsed(number, a) && Parsed(number, b)
    ensures Canonical(a) == Canonical(b) <==> Equal(a, b, true)
  {
    CanonicalRoundTrip(number, a);
    CanonicalRoundTrip(number, b);
    CanonicalOfNormal(a);
    CanonicalOfNormal(b);
    NormalIsEqual(number, a, b);
  }

  ghost predicate NoOverflow(j: Json)
    decreases j
  {
    match j
    case Num(n) => n.Finite?
    case Arr(items) => forall i :: 0 <= i < |items| ==> NoOverflow(items[i])
    case Obj(fields) => forall i :: 0 <= i < |fields| ==> NoOverflow(fields[i].value)
    case _ => true
  }

  lemma {:induction false} AlikeIsSame(a: Json, b: Json)
    requires NoOverflow(a) && NoOverflow(b)
    ensures Equal(a, b, true) <==> Equal(a, b, false)
    decreases a
  {
    match (a, b)
    case (Arr(xs), Arr(ys)) =>
      forall i | 0 <= i < |xs| && i < |ys| ensures Equal(xs[i], ys[i], true) <==> Equal(xs[i], ys[i], false) {
        AlikeIsSame(xs[i], ys[i]);
      }
    case (Obj(xs), Obj(ys)) =>
      forall i | 0 <= i < |xs| && Lookup(ys, xs[i].name).Some?
        ensures Equal(xs[i].value, Lookup(ys, xs[i].name).value, true)
                <==> Equal(xs[i].value, Lookup(ys, xs[i].name).value, false)
      {
        AlikeIsSame(xs[i].value, Lookup(ys, xs[i].name).value);
      }
    case _ =>
  }

  /** As long as no number overflowed, the canonical text is the tree up to member order and nothing less. */
  lemma CanonicalTextIsTree(number: string -> Number, a: Json, b: Json)
    requires Parsed(number, a) && Parsed(number, b) && NoOverflow(a) && NoOverflow(b)
    ensures Canonical(a) == Canonical(b) <==> Equal(a, b, false)
  {
    CanonicalTextDecides(number, a, b);
    AlikeIsSame(a, b);
  }

  /** The smallest pair that shows overflow must be set aside: `null` and a number such as 1e999. */
  lemma OverflowPrintsAsNull(number: string -> Number)
    ensures Parsed(number, Null) && Parsed(number, Num(Overflow))
    ensures Canonical(Null) == Canonical(Num(Overflow)) && !Equal(Null, Num(Overflow), false)
  {
  }
}
