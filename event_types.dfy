/**
 * The tooltip label of a timeline marker: the marker's class name is looked up
 * in a fixed table of category keys, in table order, and the label of the first
 * key occurring anywhere in the class name wins; a default label otherwise.
 */
module EventTypes {
  import opened Text

  /** The category keys and their labels, in the table's (insertion) order. */
  const Types: seq<(string, string)> := [
    ("genocide", "Folkedrab begivenhed"),
    ("massacre", "Massakre"),
    ("crisis", "Økonomisk/social krise"),
    ("propaganda", "Propaganda kampagne"),
    ("abandonment", "International passivitet"),
    ("peace", "Fredsbestræbelser"),
    ("warning", "Advarsel"),
    ("political", "Politisk begivenhed"),
    ("intervention", "International intervention"),
    ("victory", "Militær sejr"),
    ("justice", "Retfærdighedssag")
  ]

  /** The label when no key occurs in the class name. */
  const DefaultType: string := "Historisk begivenhed"

  /** The position of the first key of `table` that occurs in `className`, or -1 when none does. */
  function FirstMatchingKey(table: seq<(string, string)>, className: string): (r: int)
    ensures -1 <= r < |table|
    ensures r == -1 <==> forall k :: 0 <= k < |table| ==> !Includes(className, table[k].0)
    ensures 0 <= r ==> Includes(className, table[r].0)
    ensures 0 <= r ==> forall j :: 0 <= j < r ==> !Includes(className, table[j].0)
  {
    if |table| == 0 then -1
    else if Includes(className, table[0].0) then 0
    else
      var k := FirstMatchingKey(table[1..], className);
      if k == -1 then -1 else k + 1
  }

  /** The label `getEventType(className)` returns. */
  function EventTypeOf(className: string): (r: string)
    ensures r == DefaultType || exists k :: 0 <= k < |Types| && r == Types[k].1 && Includes(className, Types[k].0)
  {
    var r := FirstMatchingKey(Types, className);
    if r < 0 then DefaultType else Types[r].1
  }

  /** `getEventType`: walk the table in order and return at the first key that occurs. */
  method GetEventType(className: string) returns (eventType: string)
    ensures eventType == EventTypeOf(className)
  {
    for i := 0 to |Types|
      invariant forall j :: 0 <= j < i ==> !Includes(className, Types[j].0)
    {
      if Includes(className, Types[i].0) {
        assert FirstMatchingKey(Types, className) == i;
        return Types[i].1;
      }
    }
    return DefaultType;
  }

  /** The first key in table order that occurs decides the label, whatever else occurs too. */
  lemma EventTypeFirstMatch(className: string, k: nat)
    requires k < |Types| && Includes(className, Types[k].0)
    requires forall j :: 0 <= j < k ==> !Includes(className, Types[j].0)
    ensures EventTypeOf(className) == Types[k].1
  {
  }

  /** The default label comes back exactly when no key occurs, since no table label equals it. */
  lemma EventTypeDefaultIff(className: string)
    ensures EventTypeOf(className) == DefaultType <==> forall k :: 0 <= k < |Types| ==> !Includes(className, Types[k].0)
  {
    assert forall k :: 0 <= k < |Types| ==> Types[k].1 != DefaultType;
  }

  /** Table order, not position in the class name, settles overlaps: "massacre genocide" is a genocide event. */
  lemma TableOrderDecidesOverlap()
    ensures Includes("timeline-marker massacre genocide", "massacre")
    ensures EventTypeOf("timeline-marker massacre genocide") == "Folkedrab begivenhed"
  {
    var c := "timeline-marker massacre genocide";
    assert OccursAt(c, "massacre", 16) by {
      assert c[16..24] == "massacre";
    }
    IncludesIffOccurs(c, "massacre");
    assert OccursAt(c, "genocide", 25) by {
      assert c[25..33] == "genocide";
    }
    IncludesIffOccurs(c, "genocide");
    EventTypeFirstMatch(c, 0);
  }
}
