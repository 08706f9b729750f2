/** Class lists of page elements, as sets of class names, and the exclusive
    "active" marking that every button group on the page performs: remove
    `active` from every button of the group, then add it to the clicked one. */
module Classes {

  type ClassList = set<string>

  const Active: string := "active"

  /** `classList.remove('active')` on every element of a group. */
  function ClearActive(group: seq<ClassList>): (r: seq<ClassList>)
    ensures |r| == |group|
    ensures forall k | 0 <= k < |r| :: Active !in r[k]
    ensures forall k | 0 <= k < |r| :: r[k] + {Active} == group[k] + {Active}
  {
    if |group| == 0 then []
    else [group[0] - {Active}] + ClearActive(group[1..])
  }

  /** A click on button `clicked` of a group: afterwards exactly that button
      carries `active`, and no other class of any button has changed. */
  function ActivateOnly(group: seq<ClassList>, clicked: nat): (r: seq<ClassList>)
    requires clicked < |group|
    ensures |r| == |group|
    ensures forall k | 0 <= k < |r| :: Active in r[k] <==> k == clicked
    ensures forall k | 0 <= k < |r| :: r[k] - {Active} == group[k] - {Active}
  {
    var cleared := ClearActive(group);
    cleared[clicked := cleared[clicked] + {Active}]
  }

  /** Only the last click of a group matters: a second click on any button
      erases every trace of the first. */
  lemma LastClickWins(group: seq<ClassList>, first: nat, second: nat)
    requires first < |group| && second < |group|
    ensures ActivateOnly(ActivateOnly(group, first), second) == ActivateOnly(group, second)
  {
    var a := ActivateOnly(ActivateOnly(group, first), second);
    var b := ActivateOnly(group, second);
    forall k | 0 <= k < |a| ensures a[k] == b[k] {
      assert a[k] - {Active} == b[k] - {Active};
      assert Active in a[k] <==> Active in b[k];
    }
  }
}
