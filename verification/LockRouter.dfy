/** Where the text a player typed leads (components/pact-discovery.tsx, `parseLockDestination`). */
module LockRouter {
  import opened Prelude
  import opened Text
  import opened LockInvite

  datatype Destination = Strava(id: int) | Duolingo(id: int)

  /** What the URL parser makes of a text: a `lock` parameter on the Duolingo page, nothing of use, or an error. */
  datatype UrlReading = Unparsable | NoLock | LockParameter(id: string)

  predicate StartsWith(s: string, upper: string) {
    |s| >= |upper| && forall i :: 0 <= i < |upper| ==> UpperChar(s[i]) == upper[i]
  }

  function DropSeparators(s: string): string {
    if s != "" && (s[0] == '-' || s[0] == ':' || s[0] == '#' || IsSpace(s[0])) then DropSeparators(s[1..]) else s
  }

  /** `DUO` or `DUOLINGO` in any case, separators, then a positive numeral. */
  function DuoCode(s: string): Option<int> {
    if !StartsWith(s, "DUO") then None
    else
      var rest := if StartsWith(s[3..], "LINGO") then s[8..] else s[3..];
      var numeral := DropSeparators(rest);
      if PositiveNumeral(numeral) then Some(ParseNat(numeral)) else None
  }

  predicate LooksLikeUrl(s: string) {
    StartsWith(s, "/") || StartsWith(s, "HTTP://") || StartsWith(s, "HTTPS://")
  }

  predicate ShortNumeral(s: string) {
    1 <= |s| <= 78 && AllDigits(s)
  }

  /** The engine's `toUpperCase`, which may map letters beyond ASCII into it and change the length of a text. */
  type Upper = string -> string

  /** All that is asked of it: nothing stays nothing, and a text that starts with an ASCII character starts with the
      upper case of that character. */
  ghost predicate Uppercases(toUpper: Upper) {
    && toUpper("") == ""
    && forall s :: s != "" && s[0] as int < 128 ==> toUpper(s) != "" && toUpper(s)[0] == UpperChar(s[0])
  }

  lemma AsciiUppercases()
    ensures Uppercases(ToUpper)
  {
  }

  function AsIdOrCode(digest: Digest, toUpper: Upper, normalized: string): Option<Destination> {
    if ShortNumeral(normalized) then Some(Strava(ParseNat(normalized)))
    else match DecodeInvite(digest, toUpper(normalized))
      case None => None
      case Some(id) => Some(Strava(id))
  }

  function ParseDestination(digest: Digest, toUpper: Upper, url: string -> UrlReading, text: string)
    : Option<Destination>
  {
    var normalized := Trim(text);
    if DuoCode(normalized).Some? then Some(Duolingo(DuoCode(normalized).value))
    else if !LooksLikeUrl(normalized) then AsIdOrCode(digest, toUpper, normalized)
    else match url(normalized)
      case Unparsable => None
      case LockParameter(id) =>
        if PositiveNumeral(id) then Some(Duolingo(ParseNat(id))) else AsIdOrCode(digest, toUpper, normalized)
      case NoLock => AsIdOrCode(digest, toUpper, normalized)
  }

  lemma StartsOtherwise(s: string, upper: string)
    requires s != "" && upper != "" && UpperChar(s[0]) != upper[0]
    ensures !StartsWith(s, upper)
  {
  }

  /** A text whose upper case starts with L is of none of the other forms. */
  lemma StartsWithLock(toUpper: Upper, s: string)
    requires Uppercases(toUpper) && s != "" && toUpper(s) != "" && toUpper(s)[0] == 'L'
    ensures !StartsWith(s, "DUO") && !LooksLikeUrl(s) && !AllDigits(s)
  {
    var first := UpperChar(s[0]);
    assert first as int < 128 ==> first == 'L';
    StartsOtherwise(s, "DUO");
    StartsOtherwise(s, "/");
    StartsOtherwise(s, "HTTP://");
    StartsOtherwise(s, "HTTPS://");
  }

  /** However it is cased and whatever space surrounds it, an invite code leads to its own Lock: every text that the
      engine upper-cases to the code does, letters beyond ASCII included. */
  lemma CodeLeadsToItsLock(digest: Digest, toUpper: Upper, url: string -> UrlReading, text: string, id: int)
    requires Uppercases(toUpper) && EncodeInvite(digest, id) == Ok(toUpper(Trim(text)))
    ensures ParseDestination(digest, toUpper, url, text) == Some(Strava(id))
  {
    var normalized := Trim(text);
    assert |toUpper(normalized)| > 0 && toUpper(normalized)[0] == 'L';
    StartsWithLock(toUpper, normalized);
    DecodeIsInverse(digest, toUpper(normalized), id);
  }

  /** And a destination that is neither a Duolingo Lock nor a bare number comes from exactly that code. */
  lemma StravaComesFromCodeOrNumber(digest: Digest, toUpper: Upper, url: string -> UrlReading, text: string, id: int)
    requires ParseDestination(digest, toUpper, url, text) == Some(Strava(id))
    ensures EncodeInvite(digest, id) == Ok(toUpper(Trim(text)))
            || (ShortNumeral(Trim(text)) && id == ParseNat(Trim(text)))
  {
    if !ShortNumeral(Trim(text)) { DecodeIsInverse(digest, toUpper(Trim(text)), id); }
  }

  /** A bare number is not held to the contract's range: an id outside 1..2^256-1 is handed on exactly when
      the text is a numeral of at most 78 digits denoting it. */
  lemma OutOfRangeIds(digest: Digest, toUpper: Upper, url: string -> UrlReading, text: string, id: int)
    requires id < 1 || id > MAX_UINT256
    ensures ParseDestination(digest, toUpper, url, text) == Some(Strava(id))
            <==> ShortNumeral(Trim(text)) && ParseNat(Trim(text)) == id
  {
    var normalized := Trim(text);
    if ParseDestination(digest, toUpper, url, text) == Some(Strava(id)) {
      StravaComesFromCodeOrNumber(digest, toUpper, url, text, id);
    }
    if ShortNumeral(normalized) { NumeralIsPlain(normalized); }
  }

  lemma NumeralIsPlain(s: string)
    requires |s| > 0 && AllDigits(s)
    ensures !StartsWith(s, "DUO") && !LooksLikeUrl(s)
  {
    assert UpperChar(s[0]) == s[0] && IsDigit(s[0]);
  }

  /** The numeral of every id the contract can have is short enough, and leads to that Lock. */
  lemma NumeralLeadsToItsLock(digest: Digest, toUpper: Upper, url: string -> UrlReading, id: int)
    requires 1 <= id <= MAX_UINT256
    ensures ParseDestination(digest, toUpper, url, PrintNat(id)) == Some(Strava(id))
  {
    var numeral := PrintNat(id);
    PrintParse(id);
    assert |numeral| <= 78 by {
      UintBelowPow10();
      PrintLength(id, 78);
    }
    assert Trim(numeral) == numeral by { assert IsDigit(numeral[0]) && IsDigit(numeral[|numeral| - 1]); }
    NumeralIsPlain(numeral);
  }

  lemma UintBelowPow10()
    ensures MAX_UINT256 < Pow10(78)
  {
    var p13 := 10000000000000;
    assert Pow10(13) == p13;
    Pow10Adds(13, 13);
    assert Pow10(26) == p13 * p13;
    Pow10Adds(26, 13);
    assert Pow10(39) == p13 * p13 * p13;
    Pow10Adds(39, 39);
    assert Pow10(78) == (p13 * p13 * p13) * (p13 * p13 * p13);
  }

  predicate IsSeparator(c: char) {
    c == '-' || c == ':' || c == '#' || IsSpace(c)
  }

  /** The word for Duolingo, long or short and in any case, then separators. */
  ghost predicate DuoPrefix(word: string, separators: string) {
    && (ToUpper(word) == "DUO" || ToUpper(word) == "DUOLINGO")
    && forall i :: 0 <= i < |separators| ==> IsSeparator(separators[i])
  }

  lemma {:induction false} SeparatorsDrop(separators: string, numeral: string)
    requires forall i :: 0 <= i < |separators| ==> IsSeparator(separators[i])
    requires PositiveNumeral(numeral)
    ensures DropSeparators(separators + numeral) == numeral
  {
    if separators == "" {
      assert separators + numeral == numeral;
      assert IsDigit(numeral[0]);
    } else {
      assert IsSeparator(separators[0]);
      SeparatorsDrop(separators[1..], numeral);
      assert (separators + numeral)[1..] == separators[1..] + numeral;
    }
  }

  lemma {:induction false} DroppedAreSeparators(s: string) returns (separators: string)
    ensures s == separators + DropSeparators(s)
    ensures forall i :: 0 <= i < |separators| ==> IsSeparator(separators[i])
  {
    if s != "" && IsSeparator(s[0]) {
      var more := DroppedAreSeparators(s[1..]);
      separators := [s[0]] + more;
    } else {
      separators := "";
    }
  }

  lemma LongWord(s: string)
    requires StartsWith(s, "DUO") && StartsWith(s[3..], "LINGO")
    ensures |s| >= 8 && ToUpper(s[..8]) == "DUOLINGO"
  {
    forall i | 3 <= i < 8 ensures UpperChar(s[i]) == "DUOLINGO"[i] {
      assert s[3..][i - 3] == s[i] && "LINGO"[i - 3] == "DUOLINGO"[i];
    }
  }

  lemma StartsWithWord(s: string, upper: string)
    ensures StartsWith(s, upper) <==> |s| >= |upper| && ToUpper(s[..|upper|]) == upper
  {
  }

  lemma DuoFormIsRead(word: string, separators: string, numeral: string)
    requires DuoPrefix(word, separators) && PositiveNumeral(numeral)
    ensures DuoCode(word + separators + numeral) == Some(ParseNat(numeral))
  {
    var s := word + separators + numeral;
    var tail := separators + numeral;
    assert s == word + tail;
    assert word[..|word|] == word;
    SeparatorsDrop(separators, numeral);
    if |word| == 3 {
      assert StartsWith(s, "DUO") && s[3..] == tail;
      assert !StartsWith(tail, "LINGO") by { assert tail[0] == if separators == "" then numeral[0] else separators[0]; }
    } else {
      assert forall i :: 0 <= i < 8 ==> UpperChar(s[i]) == ToUpper(word)[i] == "DUOLINGO"[i];
      assert StartsWith(s, "DUO");
      assert forall i :: 0 <= i < 5 ==> s[3..][i] == s[i + 3] && "LINGO"[i] == "DUOLINGO"[i + 3];
      assert StartsWith(s[3..], "LINGO") && s[8..] == tail;
    }
  }

  /** A text split after its word and after the separators. */
  lemma SplitDuoForm(s: string, n: nat) returns (word: string, separators: string, numeral: string)
    requires n <= |s| && (ToUpper(s[..n]) == "DUO" || ToUpper(s[..n]) == "DUOLINGO")
    ensures s == word + separators + numeral && DuoPrefix(word, separators)
    ensures numeral == DropSeparators(s[n..])
  {
    var rest := s[n..];
    word, numeral := s[..n], DropSeparators(rest);
    separators := DroppedAreSeparators(rest);
    assert s == word + rest && rest == separators + numeral;
    ConcatAssociates(word, separators, numeral);
  }

  lemma ReadDuoForm(s: string) returns (word: string, separators: string, numeral: string)
    requires DuoCode(s).Some?
    ensures s == word + separators + numeral && DuoPrefix(word, separators)
    ensures PositiveNumeral(numeral) && DuoCode(s) == Some(ParseNat(numeral))
  {
    StartsWithWord(s, "DUO");
    if StartsWith(s[3..], "LINGO") {
      LongWord(s);
      word, separators, numeral := SplitDuoForm(s, 8);
    } else {
      word, separators, numeral := SplitDuoForm(s, 3);
    }
  }

  ghost predicate DuoForm(s: string, id: int) {
    exists word, separators, numeral ::
      s == word + separators + numeral && DuoPrefix(word, separators)
      && PositiveNumeral(numeral) && ParseNat(numeral) == id
  }

  /** A text that is read as a link: it starts with a slash, `http://` or `https://`, in any case. */
  ghost predicate IsLink(s: string) {
    (s != "" && s[0] == '/') || (|s| >= 7 && ToUpper(s[..7]) == "HTTP://")
    || (|s| >= 8 && ToUpper(s[..8]) == "HTTPS://")
  }

  lemma LinkIsUrl(s: string)
    ensures LooksLikeUrl(s) <==> IsLink(s)
  {
    StartsWithWord(s, "/");
    StartsWithWord(s, "HTTP://");
    StartsWithWord(s, "HTTPS://");
    if s != "" { assert s[..1] == [s[0]] && ToUpper(s[..1]) == [UpperChar(s[0])]; }
  }

  ghost predicate DuoLink(url: string -> UrlReading, s: string, id: int) {
    && IsLink(s)
    && url(s).LockParameter? && PositiveNumeral(url(s).id) && ParseNat(url(s).id) == id
  }

  /** A text leads to a Duolingo Lock exactly if it spells it, as `DUO` or `DUOLINGO` in any case, separators and a
      positive numeral, or else is a link whose `lock` parameter is such a numeral. */
  lemma DuolingoExactly(digest: Digest, toUpper: Upper, url: string -> UrlReading, text: string, id: int)
    ensures ParseDestination(digest, toUpper, url, text) == Some(Duolingo(id))
            <==> DuoForm(Trim(text), id) || DuoLink(url, Trim(text), id)
  {
    var s := Trim(text);
    LinkIsUrl(s);
    DuoCodeIsForm(s, id);
    if DuoCode(s).Some? {
      StartsWithWord(s, "DUO");
      assert ToUpper(s[..3])[0] == UpperChar(s[0]) == 'D';
    }
  }

  lemma DuoCodeIsForm(s: string, id: int)
    ensures DuoCode(s) == Some(id) <==> DuoForm(s, id)
  {
    if DuoCode(s).Some? {
      var word, separators, numeral := ReadDuoForm(s);
    }
    if DuoForm(s, id) {
      var word, separators, numeral :| s == word + separators + numeral && DuoPrefix(word, separators)
                                       && PositiveNumeral(numeral) && ParseNat(numeral) == id;
      DuoFormIsRead(word, separators, numeral);
    }
  }

  /** Any other text leads to a Strava Lock exactly if it is not a link that cannot be parsed, and is a number of at
      most 78 digits, or else the engine upper-cases it to the Lock's invite code. */
  lemma StravaExactly(digest: Digest, toUpper: Upper, url: string -> UrlReading, text: string, id: int)
    ensures ParseDestination(digest, toUpper, url, text) == Some(Strava(id))
            <==> && (forall other :: !DuoForm(Trim(text), other) && !DuoLink(url, Trim(text), other))
                 && !(IsLink(Trim(text)) && url(Trim(text)).Unparsable?)
                 && (if 1 <= |Trim(text)| <= 78 && AllDigits(Trim(text)) then id == ParseNat(Trim(text))
                     else EncodeInvite(digest, id) == Ok(toUpper(Trim(text))))
  {
    var s := Trim(text);
    LinkIsUrl(s);
    forall other ensures DuoCode(s) == Some(other) <==> DuoForm(s, other) { DuoCodeIsForm(s, other); }
    if DuoCode(s).Some? { assert DuoForm(s, DuoCode(s).value); }
    if LooksLikeUrl(s) && url(s).LockParameter? && PositiveNumeral(url(s).id) {
      assert DuoLink(url, s, ParseNat(url(s).id));
    }
    DecodeIsInverse(digest, toUpper(s), id);
  }

  /** The short form a player is told to share leads to that Duolingo Lock. */
  lemma DuoCodeLeadsToItsLock(digest: Digest, toUpper: Upper, url: string -> UrlReading, id: int)
    requires id > 0
    ensures ParseDestination(digest, toUpper, url, "DUO-" + PrintNat(id)) == Some(Duolingo(id))
  {
    PrintParse(id);
    var numeral := PrintNat(id);
    var text := "DUO-" + numeral;
    assert Trim(text) == text by {
      assert text[0] == 'D' && text[|text| - 1] == numeral[|numeral| - 1];
      assert IsDigit(numeral[|numeral| - 1]);
    }
    DuoCodeReads(numeral);
  }

  lemma DuoCodeReads(numeral: string)
    requires PositiveNumeral(numeral)
    ensures DuoCode("DUO-" + numeral) == Some(ParseNat(numeral))
  {
    var text := "DUO-" + numeral;
    assert StartsWith(text, "DUO");
    assert text[3..] == "-" + numeral;
    assert ("-" + numeral)[1..] == numeral;
    assert DropSeparators(numeral) == numeral;
  }
}
