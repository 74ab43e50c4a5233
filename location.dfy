/**
 * Location.java: a filming location's name, which must not be blank, and an
 * optional fun fact about it.  Both fields are set by the constructors and
 * can be changed by the setters.
 */
module Locations {
  import opened JavaLang

  /** The exception both constructors and setLocationName throw. */
  const LocationError := IllegalArgument("Error: location cannot be null or empty.\n")

  /** The name check: not null, and not empty once trimmed. */
  function CheckName(ln: Option<string>): (r: Outcome)
    ensures r == Pass <==> ln.Some? && Trim(ln.value) != ""
    ensures r != Pass ==> r == Fail(LocationError)
  {
    if ln.None? || |Trim(ln.value)| == 0 then Fail(LocationError) else Pass
  }

  class Location {
    var locationName: string
    var funFact: Option<string>

    /** What every constructor and setter keeps: the name is not blank. */
    predicate Valid()
      reads this
    {
      !IsBlank(locationName)
    }

    /** The state a successful constructor leaves. */
    constructor Init(ln: string, ff: Option<string>)
      requires !IsBlank(ln)
      ensures locationName == ln && funFact == ff
    {
      locationName := ln;
      funFact := ff;
    }

    /** Location(ln): the fun fact stays null. */
    static method Create(ln: Option<string>) returns (r: Result<Location>)
      ensures r.Success? <==> CheckName(ln) == Pass
      ensures r.Failure? ==> r.error == LocationError
      ensures r.Success? ==> fresh(r.value) && r.value.locationName == ln.value && r.value.funFact == None
      ensures r.Success? ==> r.value.Valid()
    {
      if CheckName(ln) != Pass {
        return Failure(LocationError);
      }
      var loc := new Location.Init(ln.value, None);
      return Success(loc);
    }

    /** Location(ln, ff): the same name check; the fun fact may be null or empty. */
    static method CreateWithFunFact(ln: Option<string>, ff: Option<string>) returns (r: Result<Location>)
      ensures r.Success? <==> CheckName(ln) == Pass
      ensures r.Failure? ==> r.error == LocationError
      ensures r.Success? ==> fresh(r.value) && r.value.locationName == ln.value && r.value.funFact == ff
      ensures r.Success? ==> r.value.Valid()
    {
      if CheckName(ln) != Pass {
        return Failure(LocationError);
      }
      var loc := new Location.Init(ln.value, ff);
      return Success(loc);
    }

    /** setLocationName: a blank name is refused and the old one kept. */
    method SetLocationName(ln: Option<string>) returns (r: Outcome)
      modifies this
      ensures r == CheckName(ln)
      ensures r == Pass ==> locationName == ln.value && funFact == old(funFact)
      ensures r != Pass ==> locationName == old(locationName) && funFact == old(funFact)
      ensures r == Pass ==> Valid()
      ensures r != Pass ==> (Valid() <==> old(Valid()))
    {
      r := CheckName(ln);
      if r == Pass {
        locationName := ln.value;
      }
    }

    /** setFunFact: any value, null and empty included, is stored. */
    method SetFunFact(ff: Option<string>)
      modifies this
      ensures funFact == ff && locationName == old(locationName)
      ensures Valid() <==> old(Valid())
    {
      funFact := ff;
    }

    /** Whether toString shows the fun fact: it is neither null nor empty. */
    predicate HasFunFact()
      reads this
    {
      funFact.Some? && |funFact.value| > 0
    }

    /** toString: the name, followed by the fun fact in parentheses when there
        is one. */
    function Text(): (s: string)
      reads this
      ensures locationName <= s
      ensures !HasFunFact() ==> s == locationName
      ensures HasFunFact() ==> s[|locationName|..] == " (" + funFact.value + ") "
    {
      var result := locationName;
      if HasFunFact() then result + " (" + funFact.value + ") " else result
    }
  }
}
