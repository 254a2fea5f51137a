/**
 * `CustomAddress` of the payment service: six nullable text fields, a
 * constructor that leaves the second address line null, and `toString`,
 * which joins the fields with single spaces.  Java's string concatenation
 * writes a null operand as "null", while calling `concat` on a null first
 * line throws.
 */
module Address {
  import opened Wrappers

  /** The six fields; None is Java's null. */
  datatype CustomAddress = CustomAddress(
    city: Option<string>, country: Option<string>, lineOne: Option<string>,
    lineTwo: Option<string>, postalCode: Option<string>, state: Option<string>)

  datatype Failure = NullPointerException

  /** The five-argument constructor: every field but `lineTwo` is set. */
  function FiveArgs(lineOne: Option<string>, city: Option<string>, country: Option<string>,
                    state: Option<string>, postalCode: Option<string>): (a: CustomAddress)
    ensures a.lineTwo.None?
    ensures a.lineOne == lineOne && a.city == city && a.country == country
    ensures a.state == state && a.postalCode == postalCode
  {
    CustomAddress(city, country, lineOne, None, postalCode, state)
  }

  /** A string operand of `+`: null is written "null", so the text alone
      cannot tell a null field from one holding "null". */
  function Show(s: Option<string>): (r: string)
    ensures s.Some? ==> r == s.value
    ensures r == "null" <==> s == None || s == Some("null")
  {
    match s
    case None => "null"
    case Some(v) => v
  }

  /** `toString`: the six-part form when `lineTwo` is set, the five-part
      form otherwise. */
  function ToString(a: CustomAddress): (r: Result<string, Failure>)
    ensures r.Err? <==> a.lineOne.None?
  {
    match a.lineOne
    case None => Err(NullPointerException)
    case Some(l1) =>
      if a.lineTwo.Some? then
        Ok(l1 + (" " + Show(a.lineTwo)) + (" " + Show(a.city)) + (" " + Show(a.state))
           + (" " + Show(a.country)) + (" " + Show(a.postalCode)))
      else
        Ok(l1 + (" " + Show(a.city)) + (" " + Show(a.state))
           + (" " + Show(a.country)) + (" " + Show(a.postalCode)))
  }

  /** The words joined by single spaces, from left to right. */
  function JoinSpaces(parts: seq<string>): string
    requires |parts| >= 1
  {
    if |parts| == 1 then parts[0] else JoinSpaces(parts[..|parts| - 1]) + " " + parts[|parts| - 1]
  }

  /** The fields `toString` writes, in order. */
  function Parts(a: CustomAddress): seq<string>
    requires a.lineOne.Some?
  {
    if a.lineTwo.Some? then
      [a.lineOne.value, a.lineTwo.value, Show(a.city), Show(a.state), Show(a.country), Show(a.postalCode)]
    else
      [a.lineOne.value, Show(a.city), Show(a.state), Show(a.country), Show(a.postalCode)]
  }

  /** `toString` writes lineOne, then lineTwo when it is set, then city,
      state, country and postal code, each after one space. */
  lemma ToStringJoinsParts(a: CustomAddress)
    requires a.lineOne.Some?
    ensures ToString(a) == Ok(JoinSpaces(Parts(a)))
    ensures |Parts(a)| == if a.lineTwo.Some? then 6 else 5
  {
    var l1 := a.lineOne.value;
    var city, state, country, postal := Show(a.city), Show(a.state), Show(a.country), Show(a.postalCode);
    var first := if a.lineTwo.Some? then [l1, a.lineTwo.value] else [l1];
    if a.lineTwo.Some? {
      JoinSnoc([l1], a.lineTwo.value);
    }
    JoinSnoc(first, city);
    JoinSnoc(first + [city], state);
    JoinSnoc(first + [city] + [state], country);
    JoinSnoc(first + [city] + [state] + [country], postal);
    assert Parts(a) == first + [city] + [state] + [country] + [postal];
    var j := if a.lineTwo.Some? then l1 + (" " + a.lineTwo.value) else l1;
    assert JoinSpaces([l1]) == l1;
    assert JoinSpaces(first) == j;
    assert ToString(a).value == j + (" " + city) + (" " + state) + (" " + country) + (" " + postal);
    assert j + (" " + city) == j + " " + city;
    assert j + " " + city + (" " + state) == j + " " + city + " " + state;
    assert j + " " + city + " " + state + (" " + country) == j + " " + city + " " + state + " " + country;
    assert j + " " + city + " " + state + " " + country + (" " + postal) ==
      j + " " + city + " " + state + " " + country + " " + postal;
  }

  lemma JoinSnoc(parts: seq<string>, w: string)
    requires |parts| >= 1
    ensures JoinSpaces(parts + [w]) == JoinSpaces(parts) + " " + w
  {
    assert (parts + [w])[..|parts|] == parts;
  }

  /** The output begins with lineOne, and ends with state, country and
      postal code in that order, whichever form is used. */
  lemma ToStringShape(a: CustomAddress)
    requires a.lineOne.Some?
    ensures
      var s := ToString(a).value;
      var tail := " " + Show(a.state) + " " + Show(a.country) + " " + Show(a.postalCode);
      |a.lineOne.value| <= |s| && s[..|a.lineOne.value|] == a.lineOne.value &&
      |tail| <= |s| && s[|s| - |tail|..] == tail
  {
    var s := ToString(a).value;
    var l1 := a.lineOne.value;
    var tail := " " + Show(a.state) + " " + Show(a.country) + " " + Show(a.postalCode);
    var mid := if a.lineTwo.Some? then " " + Show(a.lineTwo) + " " + Show(a.city) else " " + Show(a.city);
    assert s == l1 + mid + tail;
    assert (l1 + mid + tail)[..|l1|] == l1;
  }

  /** An address made by the five-argument constructor is written in the
      five-part form, with "null" for any null field but the first line. */
  lemma FiveArgsShortForm(lineOne: string, city: Option<string>, country: Option<string>,
                          state: Option<string>, postalCode: Option<string>)
    ensures ToString(FiveArgs(Some(lineOne), city, country, state, postalCode)) ==
      Ok(JoinSpaces([lineOne, Show(city), Show(state), Show(country), Show(postalCode)]))
  {
    ToStringJoinsParts(FiveArgs(Some(lineOne), city, country, state, postalCode));
  }

  /** The pieces of `s` between spaces. */
  function SplitSpaces(s: string): (r: seq<string>)
    ensures |r| >= 1
  {
    if s == [] then [""]
    else
      var p := SplitSpaces(s[..|s| - 1]);
      if s[|s| - 1] == ' ' then p + [""]
      else p[..|p| - 1] + [p[|p| - 1] + [s[|s| - 1]]]
  }

  predicate NoSpace(w: string) {
    forall i :: 0 <= i < |w| ==> w[i] != ' '
  }

  /** Splitting after one more space and word adds that word. */
  lemma {:induction false} SplitAppendWord(s: string, w: string)
    requires NoSpace(w)
    ensures SplitSpaces(s + " " + w) == SplitSpaces(s) + [w]
  {
    if w == [] {
      assert s + " " + w == s + [' '];
      assert (s + [' '])[..|s|] == s;
    } else {
      var w' := w[..|w| - 1];
      var t := s + " " + w;
      assert t[..|t| - 1] == s + " " + w';
      SplitAppendWord(s, w');
      assert w' + [w[|w| - 1]] == w;
    }
  }

  /** Splitting a space-joined list of words without spaces gives the words
      back. */
  lemma {:induction false} SplitJoin(parts: seq<string>)
    requires |parts| >= 1
    requires forall i :: 0 <= i < |parts| ==> NoSpace(parts[i])
    ensures SplitSpaces(JoinSpaces(parts)) == parts
  {
    if |parts| == 1 {
      SplitWord(parts[0]);
    } else {
      var init := parts[..|parts| - 1];
      SplitJoin(init);
      SplitAppendWord(JoinSpaces(init), parts[|parts| - 1]);
    }
  }

  /** A word without spaces splits into itself. */
  lemma {:induction false} SplitWord(w: string)
    requires NoSpace(w)
    ensures SplitSpaces(w) == [w]
  {
    if w != [] {
      SplitWord(w[..|w| - 1]);
      assert w[..|w| - 1] + [w[|w| - 1]] == w;
    }
  }

  /** When no field holds a space, every field can be read back from the
      text by splitting it at spaces. */
  lemma FieldsReadBack(a: CustomAddress)
    requires a.lineOne.Some?
    requires forall i :: 0 <= i < |Parts(a)| ==> NoSpace(Parts(a)[i])
    ensures SplitSpaces(ToString(a).value) == Parts(a)
  {
    ToStringJoinsParts(a);
    SplitJoin(Parts(a));
  }
}
