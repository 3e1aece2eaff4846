/** The inspection of signed JSON: bounded nesting, bounded containers, no sensitive headers
    (src/reclaim-onchain.ts, `inspectSignedJson`). */
module JsonInspector {
  import opened Prelude
  import opened Text
  import opened SortedNames
  import opened CanonicalJson

  const MAX_DEPTH := 20
  const MAX_ENTRIES := 512
  const MAX_FIELDS := 256

  datatype Verdict =
    | Accepted | TooLarge | NotJson | TooDeep | TooManyEntries | TooManyFields | ForbiddenHeader

  // --- header names ------------------------------------------------------------------------------------

  predicate Contains(s: string, word: string) {
    word <= s || (s != "" && Contains(s[1..], word))
  }

  const SENSITIVE_WORDS: seq<string> :=
    ["cookie", "authorization", "token", "secret", "apikey", "api-key", "api_key"]

  predicate Sensitive(name: string) {
    exists k :: 0 <= k < |SENSITIVE_WORDS| && Contains(ToLower(name), SENSITIVE_WORDS[k])
  }

  function IndexOf(s: string, c: char): (i: nat)
    ensures i <= |s| && (i < |s| ==> s[i] == c) && forall k :: 0 <= k < i ==> s[k] != c
  {
    if s == "" || s[0] == c then 0 else 1 + IndexOf(s[1..], c)
  }

  /** Lines separated by a line feed, with an optional carriage return before it. */
  function Lines(s: string): (lines: seq<string>)
    decreases |s|
  {
    var n := IndexOf(s, '\n');
    if n == |s| then [s]
    else [if n > 0 && s[n - 1] == '\r' then s[..n - 1] else s[..n]] + Lines(s[n + 1..])
  }

  predicate LineOk(line: string) {
    var separator := IndexOf(line, ':');
    !(0 < separator < |line| && Sensitive(Trim(line[..separator])))
  }

  predicate NamesHeader(name: string) {
    Fold(name) == "name" || Fold(name) == "key" || Fold(name) == "header"
  }

  /** One `name: value` member of a header object. */
  predicate HeaderFieldOk(f: Named<Json>) {
    !Sensitive(f.name) && !(NamesHeader(f.name) && f.value.Str? && Sensitive(f.value.s))
  }

  /** `inspectHeaderContainer`: text lines, nested arrays, or an object of headers. */
  predicate ContainerOk(value: Json)
    decreases value, 1
  {
    match value
    case Str(s) => forall i :: 0 <= i < |Lines(s)| ==> LineOk(Lines(s)[i])
    case Arr(items) => !(items != [] && items[0].Str? && Sensitive(items[0].s)) && ContainersOk(items)
    case Obj(fields) => forall i :: 0 <= i < |fields| ==> HeaderFieldOk(fields[i])
    case _ => true
  }

  predicate ContainersOk(items: seq<Json>)
    decreases items, 0
  {
    items == [] || (ContainerOk(items[0]) && ContainersOk(items[1..]))
  }

  // --- what counts as sensitive ------------------------------------------------------------------------

  lemma {:induction false} ContainsSomewhere(s: string, word: string)
    ensures Contains(s, word) <==> exists i :: 0 <= i <= |s| - |word| && s[i..][..|word|] == word
  {
    assert s[0..] == s;
    if word <= s {
      assert s[0..][..|word|] == word;
    } else if s != "" {
      ContainsSomewhere(s[1..], word);
      if Contains(s[1..], word) {
        var i :| 0 <= i <= |s[1..]| - |word| && s[1..][i..][..|word|] == word;
        assert s[i + 1..] == s[1..][i..];
      }
      forall i | 0 <= i <= |s| - |word| && s[i..][..|word|] == word ensures Contains(s[1..], word) {
        if i > 0 { assert s[1..][i - 1..] == s[i..]; }
      }
    }
  }

  /** A name is sensitive exactly if, in some case of letters, one of the words occurs somewhere in it. */
  lemma SensitiveAnywhere(name: string)
    ensures Sensitive(name) <==>
              || Occurs(name, "cookie") || Occurs(name, "authorization") || Occurs(name, "token")
              || Occurs(name, "secret") || Occurs(name, "apikey") || Occurs(name, "api-key") || Occurs(name, "api_key")
  {
    var folded := ToLower(name);
    forall k | 0 <= k < |SENSITIVE_WORDS|
      ensures Contains(folded, SENSITIVE_WORDS[k]) <==> Occurs(name, SENSITIVE_WORDS[k])
    {
      ContainsFolded(name, SENSITIVE_WORDS[k]);
    }
    assert SENSITIVE_WORDS[0] == "cookie" && SENSITIVE_WORDS[1] == "authorization" && SENSITIVE_WORDS[2] == "token";
    assert SENSITIVE_WORDS[3] == "secret" && SENSITIVE_WORDS[4] == "apikey" && SENSITIVE_WORDS[5] == "api-key";
    assert SENSITIVE_WORDS[6] == "api_key";
  }

  predicate Occurs(name: string, word: string) {
    exists i :: 0 <= i <= |name| - |word| && ToLower(name[i..][..|word|]) == word
  }

  lemma ContainsFolded(name: string, word: string)
    ensures Contains(ToLower(name), word) <==> Occurs(name, word)
  {
    ContainsSomewhere(ToLower(name), word);
    forall i | 0 <= i <= |name| - |word|
      ensures ToLower(name)[i..][..|word|] == ToLower(name[i..][..|word|])
    {
    }
  }

  /** A line names a header if it has a colon after its start: what stands before, trimmed, must not be sensitive. */
  lemma HeaderLine(name: string, value: string)
    requires forall i :: 0 <= i < |name| ==> name[i] != ':'
    ensures LineOk(name + ":" + value) <==> name == "" || !Sensitive(Trim(name))
    ensures LineOk(name)
  {
    var line := name + ":" + value;
    assert line[|name|] == ':';
    assert IndexOf(line, ':') == |name| by {
      assert forall i :: 0 <= i < |name| ==> line[i] == name[i];
    }
    assert line[..|name|] == name;
  }

  /** A text container is judged line by line, whether lines end in a line feed or in both characters. */
  lemma TextByLines(line: string, end: string, rest: string)
    requires forall i :: 0 <= i < |line| ==> line[i] != '\n' && line[i] != '\r'
    requires end == "\n" || end == "\r\n"
    ensures ContainerOk(Str(line + end + rest)) <==> LineOk(line) && ContainerOk(Str(rest))
  {
    assert Lines(line + end + rest) == [line] + Lines(rest) by { LinesSplit(line, rest); }
    LinesTail(Lines(line + end + rest), line, Lines(rest));
  }

  lemma LinesTail(lines: seq<string>, first: string, rest: seq<string>)
    requires lines == [first] + rest
    ensures (forall i :: 0 <= i < |lines| ==> LineOk(lines[i]))
            <==> LineOk(first) && forall i :: 0 <= i < |rest| ==> LineOk(rest[i])
  {
    assert lines[0] == first;
    assert forall i :: 0 <= i < |rest| ==> rest[i] == lines[i + 1];
    assert forall i :: 0 < i < |lines| ==> lines[i] == rest[i - 1];
  }

  lemma LinesSplit(line: string, rest: string)
    requires forall i :: 0 <= i < |line| ==> line[i] != '\n' && line[i] != '\r'
    ensures Lines(line + "\n" + rest) == [line] + Lines(rest)
    ensures Lines(line + "\r\n" + rest) == [line] + Lines(rest)
  {
    var text, both := line + "\n" + rest, line + "\r\n" + rest;
    assert text[|line|] == '\n' && forall i :: 0 <= i < |line| ==> text[i] == line[i];
    assert both[|line|] == '\r' && both[|line| + 1] == '\n' && forall i :: 0 <= i < |line| ==> both[i] == line[i];
    assert IndexOf(text, '\n') == |line| && IndexOf(both, '\n') == |line| + 1;
    assert text[..|line|] == line && text[|line| + 1..] == rest;
    assert both[..|line|] == line && both[|line| + 2..] == rest;
  }

  // --- the visit ---------------------------------------------------------------------------------------

  predicate HoldsHeaders(name: string) {
    Fold(name) == "headers" || Fold(name) == "header"
  }

  function Visit(node: Json, depth: nat): Verdict
    decreases node, 1
  {
    if depth > MAX_DEPTH then TooDeep
    else match node
      case Arr(items) => if |items| > MAX_ENTRIES then TooManyEntries else VisitItems(items, depth + 1)
      case Obj(fields) => if |fields| > MAX_FIELDS then TooManyFields else VisitFields(fields, depth + 1)
      case _ => Accepted
  }

  function VisitItems(items: seq<Json>, depth: nat): Verdict
    decreases items, 0
  {
    if items == [] then Accepted
    else
      var first := Visit(items[0], depth);
      if first != Accepted then first else VisitItems(items[1..], depth)
  }

  function VisitFields(fields: seq<Named<Json>>, depth: nat): Verdict
    decreases fields, 0
  {
    if fields == [] then Accepted
    else if HoldsHeaders(fields[0].name) && !ContainerOk(fields[0].value) then ForbiddenHeader
    else
      var first := Visit(fields[0].value, depth);
      if first != Accepted then first else VisitFields(fields[1..], depth)
  }

  function Utf8Bytes(s: string): nat {
    if s == "" then 0
    else
      var n := s[0] as int;
      (if n < 0x80 then 1 else if n < 0x800 then 2 else if n < 0x10000 then 3 else 4) + Utf8Bytes(s[1..])
  }

  /** `parse` stands for `JSON.parse`. */
  function InspectSignedJson(parse: string -> Option<Json>, value: string, maxBytes: nat): Verdict {
    if Utf8Bytes(value) > maxBytes then TooLarge
    else match parse(value)
      case None => NotJson
      case Some(parsed) => Visit(parsed, 0)
  }

  lemma {:induction false} Utf8Adds(s: string, t: string)
    ensures Utf8Bytes(s + t) == Utf8Bytes(s) + Utf8Bytes(t)
  {
    if s == "" {
      assert s + t == t;
    } else {
      Utf8Adds(s[1..], t);
      assert (s + t)[1..] == s[1..] + t;
    }
  }

  /** How many values fit into some bytes of UTF-8: one holds seven bits, and `n` hold `5 n + 1`. */
  function Utf8Room(bytes: nat): nat
    requires 1 <= bytes <= 4
  {
    match bytes case 1 => 128 case 2 => 2048 case 3 => 65536 case _ => 2097152
  }

  /** A character takes the fewest bytes that have room for it, and a text as many as its characters together. */
  lemma FewestBytes(c: char, bytes: nat, s: string, t: string)
    requires 1 <= bytes <= 4
    ensures Utf8Bytes([c]) <= bytes <==> c as int < Utf8Room(bytes)
    ensures Utf8Bytes(s + t) == Utf8Bytes(s) + Utf8Bytes(t)
  {
    Utf8Adds(s, t);
  }

  // --- nodes by path -----------------------------------------------------------------------------------

  function Children(j: Json): seq<Json> {
    match j
    case Arr(items) => items
    case Obj(fields) => seq(|fields|, i requires 0 <= i < |fields| => fields[i].value)
    case _ => []
  }

  /** The node a path of child positions leads to. */
  function At(j: Json, path: seq<nat>): Option<Json>
    decreases |path|
  {
    if path == [] then Some(j)
    else if path[0] < |Children(j)| then At(Children(j)[path[0]], path[1..])
    else None
  }

  /** What a single node must satisfy. */
  predicate NodeOk(j: Json) {
    match j
    case Arr(items) => |items| <= MAX_ENTRIES
    case Obj(fields) =>
      |fields| <= MAX_FIELDS
      && forall i :: 0 <= i < |fields| && HoldsHeaders(fields[i].name) ==> ContainerOk(fields[i].value)
    case _ => true
  }

  ghost predicate EveryNodeOk(j: Json, depth: nat) {
    forall path :: At(j, path).Some? ==> depth + |path| <= MAX_DEPTH && NodeOk(At(j, path).value)
  }

  lemma {:induction false} ItemsAccepted(items: seq<Json>, depth: nat)
    ensures VisitItems(items, depth) == Accepted <==>
              forall i :: 0 <= i < |items| ==> Visit(items[i], depth) == Accepted
  {
    if items == [] {
    } else {
      ItemsAccepted(items[1..], depth);
      assert forall i :: 0 < i < |items| ==> items[i] == items[1..][i - 1];
      assert forall i :: 0 <= i < |items[1..]| ==> items[1..][i] == items[i + 1];
    }
  }

  lemma {:induction false} FieldsAccepted(fields: seq<Named<Json>>, depth: nat)
    ensures VisitFields(fields, depth) == Accepted <==>
              forall i :: 0 <= i < |fields| ==>
                (HoldsHeaders(fields[i].name) ==> ContainerOk(fields[i].value))
                && Visit(fields[i].value, depth) == Accepted
  {
    if fields == [] {
    } else {
      FieldsAccepted(fields[1..], depth);
      assert forall i :: 0 < i < |fields| ==> fields[i] == fields[1..][i - 1];
      assert forall i :: 0 <= i < |fields[1..]| ==> fields[1..][i] == fields[i + 1];
    }
  }

  /** A node is accepted exactly when it is in bounds itself and all its children are accepted below it. */
  lemma VisitByChildren(j: Json, depth: nat)
    ensures Visit(j, depth) == Accepted <==>
              depth <= MAX_DEPTH && NodeOk(j)
              && forall i :: 0 <= i < |Children(j)| ==> Visit(Children(j)[i], depth + 1) == Accepted
  {
    match j
    case Arr(items) =>
      ItemsAccepted(items, depth + 1);
      assert Children(j) == items;
    case Obj(fields) =>
      FieldsAccepted(fields, depth + 1);
      assert forall i :: 0 <= i < |fields| ==> Children(j)[i] == fields[i].value;
    case _ =>
  }

  /** The nodes below a node are the nodes below its children. */
  lemma NodesByChildren(j: Json, depth: nat)
    ensures EveryNodeOk(j, depth) <==>
              depth <= MAX_DEPTH && NodeOk(j)
              && forall i :: 0 <= i < |Children(j)| ==> EveryNodeOk(Children(j)[i], depth + 1)
  {
    if EveryNodeOk(j, depth) {
      assert At(j, []) == Some(j);
      forall i | 0 <= i < |Children(j)| ensures EveryNodeOk(Children(j)[i], depth + 1) {
        forall path | At(Children(j)[i], path).Some?
          ensures depth + 1 + |path| <= MAX_DEPTH && NodeOk(At(Children(j)[i], path).value)
        {
          assert ([i] + path)[1..] == path;
          assert At(j, [i] + path) == At(Children(j)[i], path);
        }
      }
    }
    if depth <= MAX_DEPTH && NodeOk(j)
       && (forall i :: 0 <= i < |Children(j)| ==> EveryNodeOk(Children(j)[i], depth + 1)) {
      forall path | At(j, path).Some? ensures depth + |path| <= MAX_DEPTH && NodeOk(At(j, path).value) {
        if path != [] {
          assert EveryNodeOk(Children(j)[path[0]], depth + 1);
          assert At(Children(j)[path[0]], path[1..]) == At(j, path);
        }
      }
    }
  }

  lemma {:induction false} VisitIsEveryNode(j: Json, depth: nat)
    ensures Visit(j, depth) == Accepted <==> EveryNodeOk(j, depth)
    decreases j
  {
    forall i | 0 <= i < |Children(j)|
      ensures Visit(Children(j)[i], depth + 1) == Accepted <==> EveryNodeOk(Children(j)[i], depth + 1)
    {
      VisitIsEveryNode(Children(j)[i], depth + 1);
    }
    VisitByChildren(j, depth);
    NodesByChildren(j, depth);
  }

  /** Signed JSON is accepted exactly when it is small enough, parses, and every node anywhere in it is at
      most 20 levels deep, within its size bound, and free of forbidden headers. */
  lemma InspectionDecides(parse: string -> Option<Json>, value: string, maxBytes: nat)
    ensures InspectSignedJson(parse, value, maxBytes) == Accepted <==>
              && Utf8Bytes(value) <= maxBytes
              && parse(value).Some?
              && forall path :: At(parse(value).value, path).Some? ==>
                   |path| <= MAX_DEPTH && NodeOk(At(parse(value).value, path).value)
  {
    if parse(value).Some? { VisitIsEveryNode(parse(value).value, 0); }
  }

  /** What a verdict other than acceptance says of one node. */
  predicate Faulty(node: Json, depth: nat, verdict: Verdict) {
    match verdict
    case TooDeep => depth > 20
    case TooManyEntries => node.Arr? && |node.items| > 512
    case TooManyFields => node.Obj? && |node.fields| > 256
    case ForbiddenHeader =>
      node.Obj? && exists i :: 0 <= i < |node.fields| && HoldsHeaders(node.fields[i].name)
                               && !ContainerOk(node.fields[i].value)
    case _ => false
  }

  /** A refusal is never for nothing: some node in the tree is as the verdict says. */
  lemma {:induction false} VerdictIsTrue(j: Json, depth: nat) returns (path: seq<nat>)
    requires Visit(j, depth) != Accepted
    ensures At(j, path).Some? && Faulty(At(j, path).value, depth + |path|, Visit(j, depth))
    decreases j, 1
  {
    path := [];
    if depth <= MAX_DEPTH {
      match j
      case Arr(items) =>
        if |items| <= MAX_ENTRIES {
          var i, below := ItemVerdictIsTrue(items, depth + 1);
          path := [i] + below;
        }
      case Obj(fields) =>
        if |fields| <= MAX_FIELDS && !FaultyFields(fields, Visit(j, depth)) {
          var i, below := FieldVerdictIsTrue(fields, depth + 1);
          assert Children(j)[i] == fields[i].value;
          path := [i] + below;
        }
      case _ =>
    }
  }

  predicate FaultyFields(fields: seq<Named<Json>>, verdict: Verdict) {
    verdict == ForbiddenHeader
    && exists i :: 0 <= i < |fields| && HoldsHeaders(fields[i].name) && !ContainerOk(fields[i].value)
  }

  lemma {:induction false} ItemVerdictIsTrue(items: seq<Json>, depth: nat) returns (i: nat, path: seq<nat>)
    requires VisitItems(items, depth) != Accepted
    ensures i < |items| && At(items[i], path).Some?
    ensures Faulty(At(items[i], path).value, depth + |path|, VisitItems(items, depth))
    decreases items, 0
  {
    if Visit(items[0], depth) != Accepted {
      i := 0;
      path := VerdictIsTrue(items[0], depth);
    } else {
      i, path := ItemVerdictIsTrue(items[1..], depth);
      i := i + 1;
    }
  }

  lemma {:induction false} FieldVerdictIsTrue(fields: seq<Named<Json>>, depth: nat) returns (i: nat, path: seq<nat>)
    requires VisitFields(fields, depth) != Accepted && !FaultyFields(fields, VisitFields(fields, depth))
    ensures i < |fields| && At(fields[i].value, path).Some?
    ensures Faulty(At(fields[i].value, path).value, depth + |path|, VisitFields(fields, depth))
    decreases fields, 0
  {
    if Visit(fields[0].value, depth) != Accepted {
      i := 0;
      path := VerdictIsTrue(fields[0].value, depth);
    } else {
      assert forall k :: 0 <= k < |fields[1..]| ==> fields[1..][k] == fields[k + 1];
      i, path := FieldVerdictIsTrue(fields[1..], depth);
      i := i + 1;
    }
  }

  // --- header containers by path -----------------------------------------------------------------------

  /** The part of the container check that looks at one node. */
  predicate HeaderNodeOk(j: Json) {
    match j
    case Str(s) => forall i :: 0 <= i < |Lines(s)| ==> LineOk(Lines(s)[i])
    case Arr(items) => !(items != [] && items[0].Str? && Sensitive(items[0].s))
    case Obj(fields) => forall i :: 0 <= i < |fields| ==> HeaderFieldOk(fields[i])
    case _ => true
  }

  /** The node reached through arrays only. */
  function Within(j: Json, path: seq<nat>): Option<Json>
    decreases |path|
  {
    if path == [] then Some(j)
    else if j.Arr? && path[0] < |j.items| then Within(j.items[path[0]], path[1..])
    else None
  }

  lemma {:induction false} ContainersByIndex(items: seq<Json>)
    ensures ContainersOk(items) <==> forall i :: 0 <= i < |items| ==> ContainerOk(items[i])
  {
    if items == [] {
    } else {
      ContainersByIndex(items[1..]);
      assert forall i :: 0 < i < |items| ==> items[i] == items[1..][i - 1];
      assert forall i :: 0 <= i < |items[1..]| ==> items[1..][i] == items[i + 1];
    }
  }

  ghost predicate EveryHeaderNodeOk(j: Json) {
    forall path :: Within(j, path).Some? ==> HeaderNodeOk(Within(j, path).value)
  }

  lemma HeaderNodesByItems(j: Json)
    requires j.Arr?
    ensures EveryHeaderNodeOk(j) <==>
              HeaderNodeOk(j) && forall i :: 0 <= i < |j.items| ==> EveryHeaderNodeOk(j.items[i])
  {
    if EveryHeaderNodeOk(j) {
      assert Within(j, []) == Some(j);
      forall i | 0 <= i < |j.items| ensures EveryHeaderNodeOk(j.items[i]) {
        forall path | Within(j.items[i], path).Some? ensures HeaderNodeOk(Within(j.items[i], path).value) {
          assert ([i] + path)[1..] == path;
          assert Within(j, [i] + path) == Within(j.items[i], path);
        }
      }
    }
    if HeaderNodeOk(j) && (forall i :: 0 <= i < |j.items| ==> EveryHeaderNodeOk(j.items[i])) {
      forall path | Within(j, path).Some? ensures HeaderNodeOk(Within(j, path).value) {
        if path != [] {
          assert EveryHeaderNodeOk(j.items[path[0]]);
          assert Within(j.items[path[0]], path[1..]) == Within(j, path);
        }
      }
    }
  }

  /** A header container passes exactly when no line, first array entry or object member reachable through
      arrays names something sensitive. */
  lemma {:induction false} ContainerIsEveryNode(j: Json)
    ensures ContainerOk(j) <==> EveryHeaderNodeOk(j)
    decreases j
  {
    if j.Arr? {
      forall i | 0 <= i < |j.items| ensures ContainerOk(j.items[i]) <==> EveryHeaderNodeOk(j.items[i]) {
        ContainerIsEveryNode(j.items[i]);
      }
      ContainersByIndex(j.items);
      HeaderNodesByItems(j);
    } else {
      assert Within(j, []) == Some(j);
    }
  }

  // --- the rules in so many words ----------------------------------------------------------------------

  /** Arrays around nothing, to a given depth. */
  function Nest(n: nat): Json {
    if n == 0 then Null else Arr([Nest(n - 1)])
  }

  lemma {:induction false} NestAccepted(n: nat, depth: nat)
    ensures Visit(Nest(n), depth) == Accepted <==> depth + n <= 20
    decreases n
  {
    if n == 0 {
    } else {
      NestAccepted(n - 1, depth + 1);
      ItemsAccepted([Nest(n - 1)], depth + 1);
    }
  }

  /** Twenty levels are accepted and no more, 512 entries and no more, 256 members and no more. */
  lemma BoundsAreExact(parse: string -> Option<Json>, value: string, n: nat, names: seq<string>)
    requires forall i :: 0 <= i < |names| ==> ToLower(names[i]) == names[i] && !HoldsHeaders(names[i])
    ensures parse(value) == Some(Nest(n)) ==>
              (InspectSignedJson(parse, value, Utf8Bytes(value)) == Accepted <==> n <= 20)
    ensures parse(value) == Some(Arr(seq(n, _ => Null))) ==>
              (InspectSignedJson(parse, value, Utf8Bytes(value)) == Accepted <==> n <= 512)
    ensures parse(value) == Some(Obj(seq(|names|, i requires 0 <= i < |names| => Named(names[i], Null)))) ==>
              (InspectSignedJson(parse, value, Utf8Bytes(value)) == Accepted <==> |names| <= 256)
  {
    NestAccepted(n, 0);
    ItemsAccepted(seq(n, _ => Null), 1);
    FieldsAccepted(seq(|names|, i requires 0 <= i < |names| => Named(names[i], Null)), 1);
  }

  /** A member called `header` or `headers`, in any case, is inspected wherever it stands in accepted JSON. */
  lemma HeadersAreInspected(parse: string -> Option<Json>, value: string, maxBytes: nat, path: seq<nat>,
                            fields: seq<Named<Json>>, i: nat)
    requires InspectSignedJson(parse, value, maxBytes) == Accepted
    requires At(parse(value).value, path) == Some(Obj(fields)) && i < |fields|
    requires ToLower(fields[i].name) == "header" || ToLower(fields[i].name) == "headers"
    ensures EveryHeaderNodeOk(fields[i].value)
  {
    assert NodeOk(Obj(fields)) by { InspectionDecides(parse, value, maxBytes); }
    assert HoldsHeaders(fields[i].name) by { HeaderNames(fields[i].name); }
    ContainerIsEveryNode(fields[i].value);
  }

  lemma HeaderNames(name: string)
    requires ToLower(name) == "header" || ToLower(name) == "headers"
    ensures HoldsHeaders(name)
  {
    forall i | 0 <= i < |name| ensures name[i] as int != 0x212A {
      assert ToLower(name)[i] == LowerChar(name[i]);
      assert ToLower(name)[i] in "headers";
    }
    FoldOfAscii(name);
  }

  /** Where lower case is plain ASCII, folding is lower case. */
  lemma FoldOfAscii(name: string)
    requires forall i :: 0 <= i < |name| ==> name[i] as int != 0x212A
    ensures Fold(name) == ToLower(name)
  {
  }

  /** A member of a header object is refused exactly if its name is sensitive, or it is called `name`, `key` or
      `header`, in any case, and its text is sensitive. */
  lemma HeaderMember(name: string, value: Json)
    requires forall i :: 0 <= i < |name| ==> name[i] as int != 0x212A
    ensures ContainerOk(Obj([Named(name, value)])) <==>
              && !Sensitive(name)
              && (ToLower(name) == "name" || ToLower(name) == "key" || ToLower(name) == "header" ==>
                    value.Str? ==> !Sensitive(value.s))
  {
    FoldOfAscii(name);
    assert [Named(name, value)][0] == Named(name, value);
  }
}
