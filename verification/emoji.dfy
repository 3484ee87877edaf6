/**
 The weather-symbol classifier: an ordered keyword-to-symbol table and a
 first-match search of the lower-cased description against it.
 */
module Emoji {
  import opened Wrappers
  import opened Text
  import opened Substrings

  const Sun: string := "\U{2600}\U{FE0F}"
  const SunBehindCloud: string := "\U{1F324}\U{FE0F}"
  const Cloud: string := "\U{2601}\U{FE0F}"
  const Rain: string := "\U{1F327}\U{FE0F}"
  const SunBehindRain: string := "\U{1F326}\U{FE0F}"
  const Thunderstorm: string := "\U{26C8}\U{FE0F}"
  const Snowflake: string := "\U{2744}\U{FE0F}"
  const Fog: string := "\U{1F32B}\U{FE0F}"

  /** The symbol used when no keyword matches: a thermometer. */
  const Default: string := "\U{1F321}\U{FE0F}"

  /** The keyword table in its declaration order, which decides ties. */
  const Table: seq<(string, string)> := [
    ("ясно", Sun),
    ("облачно с прояснениями", SunBehindCloud),
    ("пасмурно", Cloud),
    ("дождь", Rain),
    ("небольшой дождь", SunBehindRain),
    ("ливень", Rain),
    ("гроза", Thunderstorm),
    ("снег", Snowflake),
    ("туман", Fog),
    ("морось", Rain)
  ]

  /** The keyword of entry `i` occurs in `text`. */
  predicate Matches(text: string, i: int)
    requires 0 <= i < |Table|
  {
    Contains(text, Table[i].0)
  }

  /** The index of the first entry at or after `from` whose keyword occurs
      in `text`, scanning the table in order. */
  function FindFrom(text: string, from: nat): (r: Option<nat>)
    requires from <= |Table|
    ensures r.Some? ==> from <= r.value < |Table| && Matches(text, r.value)
    ensures r.Some? ==> forall j :: from <= j < r.value ==> !Matches(text, j)
    ensures r.None? ==> forall j :: from <= j < |Table| ==> !Matches(text, j)
    decreases |Table| - from
  {
    if from == |Table| then None
    else if Contains(text, Table[from].0) then Some(from)
    else FindFrom(text, from + 1)
  }

  /** `get_weather_emoji(description)`. */
  function Classify(description: string): (symbol: string)
    ensures symbol == Default <==>
              forall j :: 0 <= j < |Table| ==> !Matches(Lower(description), j)
    ensures forall i :: 0 <= i < |Table| ==>
              (Matches(Lower(description), i) &&
               (forall j :: 0 <= j < i ==> !Matches(Lower(description), j))) ==>
              symbol == Table[i].1
  {
    match FindFrom(Lower(description), 0)
    case Some(i) =>
      assert Table[i].1 != Default && Matches(Lower(description), i);
      Table[i].1
    case None => Default
  }

  /** Every result is a symbol of the table or the default. */
  lemma ClassifyRange(description: string)
    ensures Classify(description) == Default ||
            exists i :: 0 <= i < |Table| && Classify(description) == Table[i].1
  {
    var r := FindFrom(Lower(description), 0);
    if r.Some? {
      assert Classify(description) == Table[r.value].1;
    }
  }

  /** Only the case of the description matters. */
  lemma ClassifyIgnoresCase(description: string)
    ensures Classify(Lower(description)) == Classify(description)
  {
    LowerIdempotent(description);
  }

  /** "дождь" precedes "небольшой дождь" and occurs inside it, so the
      sun-behind-rain symbol of the latter is never returned. */
  lemma NeverSunBehindRain(description: string)
    ensures Classify(description) != SunBehindRain
  {
    var text := Lower(description);
    var r := FindFrom(text, 0);
    if r.Some? {
      var i := r.value;
      if i == 4 {
        assert Contains(Table[4].0, Table[3].0) by {
          assert OccursAt(Table[4].0, Table[3].0, 10);
        }
        ContainsTransitive(text, Table[4].0, Table[3].0);
        assert false;
      }
    }
  }

  /** A description mentioning "небольшой дождь" and none of the first three
      keys gets the plain rain symbol, by the earlier "дождь" key. */
  lemma LightRainIsRain(description: string)
    requires Contains(Lower(description), "небольшой дождь")
    requires forall j :: 0 <= j < 3 ==> !Matches(Lower(description), j)
    ensures Classify(description) == Rain
  {
    assert OccursAt(Table[4].0, Table[3].0, 10);
    ContainsTransitive(Lower(description), Table[4].0, Table[3].0);
  }

  /** Which keys occur in "небольшой дождь". */
  lemma LightRainKeys()
    ensures Matches("небольшой дождь", 3) && Matches("небольшой дождь", 4)
    ensures forall j :: 0 <= j < 3 ==> !Matches("небольшой дождь", j)
  {
    var text := "небольшой дождь";
    MissingCharNotContained(text, Table[0].0, 'я');
    MissingCharNotContained(text, Table[1].0, 'я');
    MissingCharNotContained(text, Table[2].0, 'п');
    assert OccursAt(text, Table[3].0, 10);
    assert OccursAt(text, Table[4].0, 0);
  }

  /** "Небольшой дождь", as the provider writes it, is classified as rain. */
  lemma LightRainExample()
    ensures Classify("Небольшой дождь") == Rain
  {
    LowerPointwise("Небольшой дождь", "небольшой дождь");
    LightRainKeys();
  }

  /** A Cyrillic character, in the block U+0400-U+04FF. */
  predicate IsCyrillic(c: char)
  {
    '\U{0400}' <= c <= '\U{04FF}'
  }

  /** Every keyword is Russian, so a description without Cyrillic letters,
      such as "Clear sky", gets the thermometer. */
  lemma NonCyrillicIsDefault(description: string)
    requires forall i :: 0 <= i < |description| ==> !IsCyrillic(description[i])
    ensures Classify(description) == Default
  {
    var text := Lower(description);
    assert forall i :: 0 <= i < |text| ==> !IsCyrillic(text[i]);
    forall j | 0 <= j < |Table| ensures !Matches(text, j) {
      var key := Table[j].0;
      assert IsCyrillic(key[0]);
      MissingCharNotContained(text, key, key[0]);
    }
  }
}
