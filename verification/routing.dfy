/**
 The routing decision of the catch-all message handler: a message whose
 trimmed, lower-cased text ends with the keyword "прогноз" asks for the
 three-day forecast, any other message for the current weather.
 */
module Routing {
  import opened Text
  import opened Substrings

  /** The forecast keyword, "forecast" in Russian. */
  const Keyword: string := "прогноз"

  /** Which handler a message goes to, and the place name it passes on. */
  datatype Route = Forecast(place: string) | Current(place: string)

  /** `handle_message`: trims the text; on a trailing keyword, lowers it,
      deletes every keyword occurrence and trims again. */
  function RouteMessage(text: string): (r: Route)
    ensures r.Forecast? <==> EndsWith(Lower(Strip(text)), Keyword)
    ensures Stripped(r.place)
    ensures r.Current? ==> r.place == Strip(text)
    ensures r.Forecast? ==> forall i :: 0 <= i < |r.place| ==> !IsUpper(r.place[i])
    ensures r.Forecast? ==> |r.place| + |Keyword| <= |Strip(text)|
  {
    var city := Strip(text);
    if EndsWith(Lower(city), Keyword) then
      EndsWithContains(Lower(city), Keyword);
      var place := Strip(RemoveAll(Lower(city), Keyword));
      RemovalKeepsLowerCase(Lower(city), Keyword);
      Forecast(place)
    else
      Current(city)
  }

  /** Deleting occurrences and trimming keep a string free of capitals. */
  lemma RemovalKeepsLowerCase(s: string, pat: string)
    requires pat != []
    requires forall i :: 0 <= i < |s| ==> !IsUpper(s[i])
    ensures forall i :: 0 <= i < |Strip(RemoveAll(s, pat))| ==> !IsUpper(Strip(RemoveAll(s, pat))[i])
  {
    var r := RemoveAll(s, pat);
    NoCapitalsInRemoval(s, pat);
    var t := Strip(r);
    var a := SkipSpace(r, 0);
    forall i | 0 <= i < |t| ensures !IsUpper(t[i]) {
      assert t[i] == r[a + i];
    }
  }

  lemma {:induction false} NoCapitalsInRemoval(s: string, pat: string)
    requires pat != []
    requires forall i :: 0 <= i < |s| ==> !IsUpper(s[i])
    ensures forall i :: 0 <= i < |RemoveAll(s, pat)| ==> !IsUpper(RemoveAll(s, pat)[i])
    decreases |s|
  {
    if |s| < |pat| {
    } else if s[..|pat|] == pat {
      NoCapitalsInRemoval(s[|pat|..], pat);
    } else {
      NoCapitalsInRemoval(s[1..], pat);
    }
  }

  /** What the proofs below need to know of the keyword's letters. */
  lemma KeywordFacts()
    ensures Keyword != [] && NoBorder(Keyword) && ' ' !in Keyword
    ensures Lower(Keyword) == Keyword && Stripped(Keyword)
  {
    assert Keyword[0] !in Keyword[1..];
    FirstCharUniqueNoBorder(Keyword);
    LowerPointwise(Keyword, Keyword);
  }

  /** An occurrence that reaches the end of `s` ends with its last character. */
  lemma OccurrenceAtEnd(s: string, pat: string, i: int)
    requires pat != [] && OccursAt(s, pat, i) && i + |pat| == |s|
    ensures pat[|pat| - 1] == s[|s| - 1]
  {
    assert s[i..i + |pat|][|pat| - 1] == s[|s| - 1];
  }

  /** A character foreign to `pat` cannot be part of an occurrence. */
  lemma ContainsSnoc(x: string, c: char, pat: string)
    requires pat != [] && c !in pat
    requires Contains(x + [c], pat)
    ensures Contains(x, pat)
  {
    var s := x + [c];
    var i :| 0 <= i <= |s| && OccursAt(s, pat, i);
    if i + |pat| == |s| {
      OccurrenceAtEnd(s, pat, i);
      assert false;
    }
    assert x[i..i + |pat|] == s[i..i + |pat|];
    assert OccursAt(x, pat, i);
  }

  /** Trimming a padded "<place> <keyword>" request. */
  lemma StripRequest(lead: string, place: string, keyword: string, trail: string)
    requires AllSpace(lead) && AllSpace(trail)
    requires place != [] && Stripped(place)
    requires keyword != [] && Stripped(Lower(keyword))
    ensures Strip(lead + place + " " + keyword + trail) == place + " " + keyword
  {
    var core := place + " " + keyword;
    assert lead + place + " " + keyword + trail == lead + core + trail;
    assert core[|core| - 1] == keyword[|keyword| - 1];
    assert LowerChar(keyword[|keyword| - 1]) == Lower(keyword)[|keyword| - 1];
    StripPadded(lead, core, trail);
  }

  /** Lowering a "<place> <keyword>" request. */
  lemma LowerRequest(place: string, keyword: string)
    ensures Lower(place + " " + keyword) == Lower(place) + " " + Lower(keyword)
  {
    LowerConcat(place + " ", keyword);
    LowerConcat(place, " ");
  }

  /** Deleting a keyword free of spaces from "<place> <keyword>" leaves
      "<place> ". */
  lemma RemoveTrailingKeyword(low: string, k: string)
    requires k != [] && NoBorder(k) && ' ' !in k
    requires !Contains(low, k)
    ensures RemoveAll(low + " " + k, k) == low + " "
  {
    RemoveAllAppend(low + " ", k);
    if Contains(low + " ", k) {
      ContainsSnoc(low, ' ', k);
    }
  }

  /** The steps of the handler on "<place> <keyword>", for any keyword
      `k` without spaces that cannot overlap itself. */
  lemma HandleTrailingKeyword(lead: string, place: string, keyword: string, trail: string, k: string)
    requires k != [] && NoBorder(k) && ' ' !in k && Stripped(k)
    requires AllSpace(lead) && AllSpace(trail)
    requires place != [] && Stripped(place)
    requires !Contains(Lower(place), k)
    requires Lower(keyword) == k
    ensures var m := Strip(lead + place + " " + keyword + trail);
            EndsWith(Lower(m), k) && Strip(RemoveAll(Lower(m), k)) == Lower(place)
  {
    StripRequest(lead, place, keyword, trail);
    LowerRequest(place, keyword);
    var low := Lower(place);
    assert (low + " " + k)[|low + " " + k| - |k|..] == k;
    RemoveTrailingKeyword(low, k);
    LowerStripped(place);
    StripPadded([], low, " ");
    assert [] + low + " " == low + " ";
  }

  /** "<place> прогноз", in any letter case and with any surrounding
      whitespace, asks for the forecast of the lower-cased place, provided
      the place does not itself contain the keyword. */
  lemma ForecastRequest(lead: string, place: string, keyword: string, trail: string)
    requires AllSpace(lead) && AllSpace(trail)
    requires place != [] && Stripped(place)
    requires !Contains(Lower(place), Keyword)
    requires Lower(keyword) == Keyword
    ensures RouteMessage(lead + place + " " + keyword + trail) == Forecast(Lower(place))
  {
    KeywordFacts();
    HandleTrailingKeyword(lead, place, keyword, trail, Keyword);
  }

  /** Deleting every occurrence of `k` from "<k> <low> <k>". */
  lemma RemoveBothKeywords(low: string, k: string)
    requires k != [] && NoBorder(k) && ' ' !in k
    requires !Contains(low, k)
    ensures RemoveAll(k + " " + low + " " + k, k) == " " + low + " "
  {
    var rest := " " + low + " " + k;
    assert k + " " + low + " " + k == k + rest;
    assert (k + rest)[..|k|] == k;
    assert (k + rest)[|k|..] == rest;
    if |rest| >= |k| {
      assert rest[..|k|] != k by { assert rest[0] == ' '; }
    }
    assert rest[1..] == low + " " + k;
    RemoveTrailingKeyword(low, k);
  }

  /** A stripped string between two spaces strips back to itself. */
  lemma StripSpaced(low: string)
    requires Stripped(low)
    ensures Strip(" " + low + " ") == low
  {
    StripPadded(" ", low, " ");
  }

  /** Trimming and lowering "<k> <place> <k>". */
  lemma PrepareBothKeywords(place: string, k: string)
    requires k != [] && Lower(k) == k && Stripped(k)
    ensures Strip(k + " " + place + " " + k) == k + " " + place + " " + k
    ensures Lower(k + " " + place + " " + k) == k + " " + Lower(place) + " " + k
  {
    var m := k + " " + place + " " + k;
    LowerRequest(k + " " + place, k);
    LowerRequest(k, place);
    assert m[0] == k[0] && m[|m| - 1] == k[|k| - 1];
    StripStripped(m);
  }

  /** The steps of the handler on "<k> <place> <k>", for any keyword `k`
      without capitals or spaces that cannot overlap itself. */
  lemma HandleBothKeywords(place: string, k: string)
    requires k != [] && NoBorder(k) && ' ' !in k && Lower(k) == k && Stripped(k)
    requires place != [] && Stripped(place)
    requires !Contains(Lower(place), k)
    ensures var m := Strip(k + " " + place + " " + k);
            EndsWith(Lower(m), k) && Strip(RemoveAll(Lower(m), k)) == Lower(place)
  {
    PrepareBothKeywords(place, k);
    var l := k + " " + Lower(place) + " " + k;
    assert l[|l| - |k|..] == k;
    RemoveBothKeywords(Lower(place), k);
    LowerStripped(place);
    StripSpaced(Lower(place));
  }

  /** Every occurrence of the keyword is deleted, not just the trailing
      one: "прогноз <place> прогноз" asks for the forecast of the place. */
  lemma KeywordDeletedEverywhere(place: string)
    requires place != [] && Stripped(place)
    requires !Contains(Lower(place), Keyword)
    ensures RouteMessage(Keyword + " " + place + " " + Keyword) == Forecast(Lower(place))
  {
    KeywordFacts();
    HandleBothKeywords(place, Keyword);
  }

  /** A message that does not end with the keyword asks for the current
      weather of its trimmed text, in its own letter case. */
  lemma CurrentRequest(lead: string, place: string, trail: string)
    requires AllSpace(lead) && AllSpace(trail) && Stripped(place)
    requires !EndsWith(Lower(place), Keyword)
    ensures RouteMessage(lead + place + trail) == Current(place)
  {
    StripPadded(lead, place, trail);
  }

  /** Sending the place of a current-weather route again routes it the
      same way. */
  lemma CurrentIdempotent(text: string)
    requires RouteMessage(text).Current?
    ensures RouteMessage(RouteMessage(text).place) == RouteMessage(text)
  {
    StripIdempotent(text);
  }

  /** The bare keyword asks for the forecast of the empty place name. */
  lemma BareKeyword()
    ensures RouteMessage(Keyword) == Forecast([])
  {
    StripStripped(Keyword);
    LowerPointwise(Keyword, Keyword);
    assert Keyword[..|Keyword|] == Keyword;
    assert RemoveAll(Keyword, Keyword) == RemoveAll([], Keyword);
    StripStripped([]);
  }
}
