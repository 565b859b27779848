/** The `age` helper of the command line (percache.py, lines 102-108): an age
    in whole seconds printed in the largest unit of which it holds more than
    one, trying days, hours, minutes, and falling back to seconds. */
module AgeFormat {
  import opened Wrappers
  import opened Decimal

  /** The loop stops at a (count, unit) pair whose count exceeds one, and
      always at seconds. */
  predicate Selected(p: (int, char))
  {
    p.0 > 1 || p.1 == 's'
  }

  /** The first selected pair of the list, or None when the loop runs out. */
  function FirstSelected(ps: seq<(int, char)>): (r: Option<(int, char)>)
    ensures r.None? <==> forall i :: 0 <= i < |ps| ==> !Selected(ps[i])
    ensures r.Some? ==> exists i :: 0 <= i < |ps| && ps[i] == r.value && Selected(ps[i]) &&
                                    forall j :: 0 <= j < i ==> !Selected(ps[j])
  {
    if ps == [] then None
    else if Selected(ps[0]) then Some(ps[0])
    else
      var r := FirstSelected(ps[1..]);
      assert r.Some? ==> exists i :: 1 <= i < |ps| && ps[i] == r.value && Selected(ps[i]) &&
                                     forall j :: 0 <= j < i ==> !Selected(ps[j]) by {
        if r.Some? {
          var i :| 0 <= i < |ps[1..]| && ps[1..][i] == r.value && Selected(ps[1..][i]) &&
                   forall j :: 0 <= j < i ==> !Selected(ps[1..][j]);
          assert ps[i + 1] == r.value;
          assert forall j :: 0 <= j < i + 1 ==> !Selected(ps[j]) by {
            forall j | 0 <= j < i + 1 ensures !Selected(ps[j]) {
              if j > 0 { assert ps[j] == ps[1..][j - 1]; }
            }
          }
        }
      }
      assert r.None? ==> forall i :: 0 <= i < |ps| ==> !Selected(ps[i]) by {
        if r.None? {
          forall i | 0 <= i < |ps| ensures !Selected(ps[i]) {
            if i > 0 { assert ps[i] == ps[1..][i - 1]; }
          }
        }
      }
      r
  }

  /** The (count, unit) pairs in the order the loop tries them; `/` with a
      positive divisor rounds toward negative infinity, as Python's `//` does. */
  function Units(s: int): seq<(int, char)>
  {
    [(s / 86400, 'd'), (s / 3600, 'h'), (s / 60, 'm'), (s, 's')]
  }

  /** The printed age, or None if the loop found no pair. */
  function Age(s: int): (r: Option<string>)
    ensures r.Some?
  {
    assert Selected(Units(s)[3]);
    match FirstSelected(Units(s))
    case None => None
    case Some(p) => Some(Format(p.0) + [p.1])
  }

  function UnitSeconds(u: char): int
  {
    if u == 'd' then 86400 else if u == 'h' then 3600 else if u == 'm' then 60 else 1
  }

  /** Splits a printed age into its count and its unit letter. */
  function ReadAge(text: string): Option<(int, char)>
  {
    if text == [] then None
    else match Parse(text[..|text| - 1])
      case None => None
      case Some(n) => Some((n, text[|text| - 1]))
  }

  /** What a printed age says: a count of whole units of one of the four
      kinds, more than one unless the unit is seconds, and no larger unit
      of which the age holds more than one. */
  lemma AgeMeaning(s: int)
    ensures ReadAge(Age(s).value).Some?
    ensures var (count, unit) := ReadAge(Age(s).value).value;
            && unit in "dhms"
            && count == s / UnitSeconds(unit)
            && (count > 1 || unit == 's')
            && (unit != 'd' ==> s / 86400 <= 1)
            && (unit == 'm' || unit == 's' ==> s / 3600 <= 1)
            && (unit == 's' ==> s / 60 <= 1)
            && (s >= 0 ==> count * UnitSeconds(unit) <= s < (count + 1) * UnitSeconds(unit))
  {
    var ps := Units(s);
    assert Selected(ps[3]);
    var p := FirstSelected(ps).value;
    var i :| 0 <= i < |ps| && ps[i] == p && Selected(ps[i]) && forall j :: 0 <= j < i ==> !Selected(ps[j]);
    assert i > 0 ==> !Selected(ps[0]);
    assert i > 1 ==> !Selected(ps[1]);
    assert i > 2 ==> !Selected(ps[2]);
    var text := Format(p.0) + [p.1];
    assert text[..|text| - 1] == Format(p.0);
    FormatRoundTrip(p.0);
    assert ReadAge(text) == Some(p);
  }
}
