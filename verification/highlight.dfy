/**
 `highlightActivityType`: clear every activity card's highlight, then
 highlight the cards whose title matches the activity type, either as a
 case-insensitive substring or through a shared keyword from a fixed list.
 Each card's title stands for the text of its `h3`.

 Its only caller is `handleDropdownLinkClick` (script.js:158), and no
 listener in script.js calls that; the dropdown links get only the mousedown
 hide. Neither function is reachable from a control the script wires.
 */
module Highlight {
  import opened JsText

  datatype Card = Card(title: string, highlighted: bool)

  const Keywords: seq<string> := ["technical", "workshop", "seminar", "visit", "competition"]

  /** The match, stated once over the keyword list: the lowercased title
      includes the lowercased activity type, or some keyword is included in
      both. */
  predicate TitleMatches(title: string, activityType: string) {
    var t := ToLower(title);
    var k := ToLower(activityType);
    Includes(t, k) || exists w :: w in Keywords && Includes(k, w) && Includes(t, w)
  }

  /** The condition as the handler spells it out, keyword by keyword. */
  predicate HandlerCondition(cardTitle: string, searchTerm: string) {
    || Includes(cardTitle, searchTerm)
    || (Includes(searchTerm, "technical") && Includes(cardTitle, "technical"))
    || (Includes(searchTerm, "workshop") && Includes(cardTitle, "workshop"))
    || (Includes(searchTerm, "seminar") && Includes(cardTitle, "seminar"))
    || (Includes(searchTerm, "visit") && Includes(cardTitle, "visit"))
    || (Includes(searchTerm, "competition") && Includes(cardTitle, "competition"))
  }

  lemma HandlerConditionIsTitleMatch(title: string, activityType: string)
    ensures HandlerCondition(ToLower(title), ToLower(activityType)) <==> TitleMatches(title, activityType)
  {
  }

  /** The handler: every highlight is removed first, then each matching card
      is highlighted. Titles and order are kept. */
  function HighlightActivityType(cards: seq<Card>, activityType: string): (r: seq<Card>)
    ensures |r| == |cards|
    ensures forall i :: 0 <= i < |r| ==> r[i].title == cards[i].title
    ensures forall i :: 0 <= i < |r| ==> (r[i].highlighted <==> TitleMatches(cards[i].title, activityType))
  {
    var cleared := seq(|cards|, i requires 0 <= i < |cards| => cards[i].(highlighted := false));
    var searchTerm := ToLower(activityType);
    var r := seq(|cleared|, i requires 0 <= i < |cleared| =>
      if HandlerCondition(ToLower(cleared[i].title), searchTerm) then cleared[i].(highlighted := true)
      else cleared[i]);
    assert forall i :: 0 <= i < |r| ==> (r[i].highlighted <==> TitleMatches(cards[i].title, activityType)) by {
      forall i | 0 <= i < |r| {
        HandlerConditionIsTitleMatch(cards[i].title, activityType);
      }
    }
    r
  }

  /** Highlights left from an earlier call play no part: the result depends
      on the titles alone. */
  lemma HighlightForgetsEarlier(cards: seq<Card>, other: seq<Card>, activityType: string)
    requires |cards| == |other|
    requires forall i :: 0 <= i < |cards| ==> cards[i].title == other[i].title
    ensures HighlightActivityType(cards, activityType) == HighlightActivityType(other, activityType)
  {
  }

  /** Every title includes the empty string, so an empty activity type
      highlights every card. */
  lemma EmptyTypeHighlightsAll(cards: seq<Card>)
    ensures forall i :: 0 <= i < |cards| ==> HighlightActivityType(cards, "")[i].highlighted
  {
    forall i | 0 <= i < |cards| {
      IncludesEmpty(ToLower(cards[i].title));
    }
  }

  /** A shared keyword is enough: "Technical Visits" highlights a card
      titled "Industrial Visit" although that title does not include the
      activity type. */
  lemma SampleKeywordMatch(title: string, activityType: string)
    requires title == "Industrial Visit" && activityType == "Technical Visits"
    ensures !Includes(ToLower(title), ToLower(activityType))
    ensures TitleMatches(title, activityType)
  {
    var t, k := ToLower(title), ToLower(activityType);
    assert |t| == |k| && t[0] != k[0];
    assert t[11..16] == "visit";
    assert k[10..15] == "visit";
    IncludesIffOccurs(t, "visit");
    IncludesIffOccurs(k, "visit");
    IncludesIffOccurs(t, k);
    assert OccursAt(t, "visit", 11);
    assert OccursAt(k, "visit", 10);
    assert Keywords[3] == "visit";
  }
}
