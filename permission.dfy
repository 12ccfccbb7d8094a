/** `hasPermission`: whether a user's permission codes satisfy a route's requirement. */
module Permission {
  import opened JsValues

  /** The requirement a route states: none, one code, or a list of codes. */
  datatype Requirement = Undefined | One(code: string) | Many(codes: seq<string>)

  /** The code that stands for every permission. */
  const Wildcard: string := "*"

  /** `` !permissions || `${permissions}`.trim() === '' ``; an array's text is its items joined by commas. */
  predicate Blank(req: Requirement) {
    match req
    case Undefined => true
    case One(code) => code == "" || Trim(code) == ""
    case Many(codes) => Trim(Join(codes, ",")) == ""
  }

  /** The requirement as a list: a single code becomes a one-element list. */
  function Codes(req: Requirement): seq<string> {
    match req
    case Undefined => []
    case One(code) => [code]
    case Many(codes) => codes
  }

  /** Some code of one list is in the other. */
  predicate Shares(required: seq<string>, user: seq<string>) {
    exists i :: 0 <= i < |required| && required[i] in user
  }

  /** `hasPermission(permissions, userPermission)` */
  predicate HasPermission(req: Requirement, user: seq<string>) {
    if Blank(req) then true
    else
      var required := Codes(req);
      if |required| == 0 then true
      else if |user| == 0 then false
      else if Wildcard in required then true
      else if Wildcard in user then true
      else Shares(required, user)
  }

  /** Blank requirements, an empty list among them, are always granted, whatever the user holds. */
  lemma BlankGranted(req: Requirement, user: seq<string>)
    requires req.Undefined? || req == Many([]) || (req.One? && Trim(req.code) == "")
    ensures HasPermission(req, user)
  {
    if req == Many([]) {
      assert Join([], ",") == "";
      assert Trim("") == "";
    }
  }

  /** A single code is treated exactly as the list holding only that code. */
  lemma SingleAsList(code: string, user: seq<string>)
    ensures HasPermission(One(code), user) == HasPermission(Many([code]), user)
  {
    assert Join([code], ",") == code;
    if code == "" {
      assert Trim(code) == "";
    }
  }

  /**
   * What access means once the requirement is not blank: the user holds some permission and
   * either side holds the wildcard or the two share a code.
   */
  lemma GrantedMeaning(req: Requirement, user: seq<string>)
    requires !Blank(req)
    ensures HasPermission(req, user) <==>
      (|user| > 0 && (Wildcard in Codes(req) || Wildcard in user || Shares(Codes(req), user)))
  {
    if |user| > 0 && Wildcard in Codes(req) {
      assert |Codes(req)| > 0;
    }
  }

  /** Holding more permission codes never loses access. */
  lemma MoreCodesKeepAccess(req: Requirement, user: seq<string>, more: seq<string>)
    requires HasPermission(req, user)
    requires forall c :: c in user ==> c in more
    ensures HasPermission(req, more)
  {
    if !Blank(req) && |Codes(req)| > 0 {
      assert user[0] in more;
      var required := Codes(req);
      if !(Wildcard in required) && !(Wildcard in user) {
        var i :| 0 <= i < |required| && required[i] in user;
        assert required[i] in more;
      }
    }
  }
}
