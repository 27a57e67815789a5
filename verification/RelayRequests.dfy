/** The texts of the relay protocol by the names in them: requests as they are read, responses as they are written. */
module RelayRequests {
  import opened Common
  import opened RelayWorld
  import opened RelaySpec
  import RelayOrder
  import Json
  import JsonText
  import JsonRoundTrip

  /** Member `m` of an object is the first whose name is `key`, up to the case of its letters. */
  predicate FirstNamed(v: Json.Value, key: string, m: int) {
    && v.Object? && 0 <= m < |v.members| && SameName(v.members[m].key, Ascii(key))
    && forall i :: 0 <= i < m ==> !SameName(v.members[i].key, Ascii(key))
  }

  /** The first member of that name has the value `x`. */
  ghost predicate Has(v: Json.Value, key: string, x: Json.Value) {
    exists m :: FirstNamed(v, key, m) && v.members[m].value == x
  }

  lemma {:induction false} FindNamed(members: seq<Json.Member>, key: string) returns (m: nat)
    ensures var v := Json.Object(members);
            match FindMember(members, Ascii(key))
            case None => forall i :: 0 <= i < |members| ==> !SameName(members[i].key, Ascii(key))
            case Some(x) => FirstNamed(v, key, m) && members[m].value == x
  {
    hide EqualsCi, SameName, Ascii;
    m := 0;
    if members != [] {
      EqualsCiIsSameName(members[0].key, Ascii(key));
      if !SameName(members[0].key, Ascii(key)) {
        var n := FindNamed(members[1..], key);
        m := n + 1;
        forall i | 1 <= i < |members| ensures members[i] == members[1..][i - 1] {
        }
      }
    }
  }

  /** Looking a name up finds the first member of that name, whatever its case, and nothing else. */
  lemma FindIs(v: Json.Value, key: string)
    ensures forall x :: FindCi(v, Ascii(key)) == Some(x) <==> Has(v, key, x)
  {
    hide SameName, Ascii, FindMember;
    if v.Object? {
      var m := FindNamed(v.members, key);
      forall x, n | FirstNamed(v, key, n) && v.members[n].value == x ensures FindCi(v, Ascii(key)) == Some(x) {
        assert FindMember(v.members, Ascii(key)).Some?;
        assert n == m;
      }
    }
  }

  lemma StringIs(v: Json.Value, key: string)
    ensures forall s :: GetStr(v, Ascii(key)) == Some(s) <==> Has(v, key, Json.String(s))
  {
    hide Has, Ascii, FindCi;
    FindIs(v, key);
  }

  ghost predicate HasText(v: Json.Value, key: string) {
    exists s :: Has(v, key, Json.String(s))
  }

  /**
   The request a handler sees, member by member: a missing id or method is empty
   and a missing target is the root; a member that is not a text is a missing one.
   */
  lemma RequestFields(node: Json.Value, body: Bytes)
    ensures var q := RequestOf(node, body);
            && (forall s :: Has(node, "id", Json.String(s)) ==> q.id == s)
            && (!HasText(node, "id") ==> q.id == [])
            && (forall s :: Has(node, "method", Json.String(s)) ==> q.method_ == s)
            && (!HasText(node, "method") ==> q.method_ == [])
            && (forall s :: Has(node, "requestTarget", Json.String(s)) ==> q.target == s)
            && (!HasText(node, "requestTarget") ==> q.target == [0x2F])
            && (forall x :: q.headers == Some(x) <==> Has(node, "requestHeaders", x))
            && q.body == body
    ensures var p := ParseRequest(node);
            && p.id == RequestOf(node, body).id
            && (forall s :: p.method_ == Some(s) <==> Has(node, "method", Json.String(s)))
            && (forall s :: p.address == Some(s) <==> Has(node, "address", Json.String(s)))
            && (p.hasBody <==> Has(node, "body", Json.Bool(true)))
  {
    hide Has, FindCi, GetStr;
    StringIs(node, "id");
    StringIs(node, "method");
    StringIs(node, "requestTarget");
    StringIs(node, "address");
    FindIs(node, "requestHeaders");
    FindIs(node, "body");
    TextFound(node, "id");
    TextFound(node, "method");
    TextFound(node, "requestTarget");
    assert Ascii("/") == [0x2F];
  }

  lemma TextFound(node: Json.Value, key: string)
    ensures HasText(node, key) <==> GetStr(node, Ascii(key)).Some?
  {
    hide Has, GetStr, Ascii;
    StringIs(node, key);
    if GetStr(node, Ascii(key)).Some? {
      assert Has(node, key, Json.String(GetStr(node, Ascii(key)).value));
    }
  }

  /** A text holds a request exactly when it is a JSON document with a member of that name. */
  lemma RequestNamed(text: Bytes, node: Json.Value)
    ensures RequestIn(text) == Some(node) <==>
            JsonText.ParseDocument(text).Ok? && Has(JsonText.ParseDocument(text).value, "request", node)
    ensures RelayOrder.Requested(text) == Some(node) <==> RequestIn(text) == Some(node) && HasText(node, "method")
  {
    hide Has, HasText, FindCi, GetStr, JsonText.ParseDocument, Ascii;
    if JsonText.ParseDocument(text).Ok? {
      FindIs(JsonText.ParseDocument(text).value, "request");
    }
    TextFound(node, "method");
  }

  ghost predicate HasAny(v: Json.Value, key: string) {
    exists x :: Has(v, key, x)
  }

  /**
   What becomes of a control text: a request with a method is served, one
   without is an offer if it has an address and an error if it has not, and
   any other text is only reported.
   */
  lemma ControlDispatches(cfg: Config, s: State, ctrl: nat, text: Bytes)
    requires ctrl < |s.w.links|
    ensures var t, doc := HandleControl(cfg, s, ctrl, text), JsonText.ParseDocument(text);
            if doc.Err? then t == s.Log(Emit(Unparsable))
            else if !HasAny(doc.value, "request") then
              t == s.Log(Emit(if HasAny(doc.value, "accept") then AcceptIgnored else Control))
            else
              forall node :: Has(doc.value, "request", node) ==>
                if HasText(node, "method") then t == Serve(cfg, s, ctrl, node, true)
                else
                  && (forall a :: Has(node, "address", Json.String(a)) ==> t == Offer(cfg, s, a))
                  && (!HasText(node, "address") ==> t == s.Log(Emit(RequestError)))
  {
    hide Has, HasText, HasAny, FindCi, GetStr, JsonText.ParseDocument, Ascii, Serve, Offer;
    if JsonText.ParseDocument(text).Ok? {
      var root := JsonText.ParseDocument(text).value;
      AnyFound(root, "request");
      AnyFound(root, "accept");
      FindIs(root, "request");
      if FindCi(root, Ascii("request")).Some? {
        var node := FindCi(root, Ascii("request")).value;
        TextFound(node, "method");
        TextFound(node, "address");
        StringIs(node, "address");
      }
    }
  }

  lemma AnyFound(v: Json.Value, key: string)
    ensures HasAny(v, key) <==> FindCi(v, Ascii(key)).Some?
  {
    hide Has, FindCi, Ascii;
    FindIs(v, key);
    if FindCi(v, Ascii(key)).Some? {
      assert Has(v, key, FindCi(v, Ascii(key)).value);
    }
  }

  // -------------------------------------------------------------- responses

  /** The peer that parses a response text finds the answer in it, member by member. */
  lemma ResponseReadsBack(id: Bytes, r: Response) returns (inner: Json.Value, headers: Json.Value)
    ensures ResponseText(id, r).kind.Text?
    ensures JsonText.ParseDocument(ResponseText(id, r).payload).Ok?
    ensures Has(JsonText.ParseDocument(ResponseText(id, r).payload).value, "response", inner)
    ensures Has(inner, "requestId", Json.String(id))
    ensures Has(inner, "statusCode", Json.Number(r.code as real))
    ensures if r.desc == [] then !HasAny(inner, "statusDescription")
            else Has(inner, "statusDescription", Json.String(r.desc))
    ensures Has(inner, "responseHeaders", headers)
    ensures Has(headers, "Content-Type",
                Json.String(if r.contentType == [] then Ascii("application/json") else r.contentType))
    ensures Has(inner, "body", Json.Bool(r.body != []))
  {
    hide Has, HasAny, Json.Dump, JsonText.ParseDocument, ResponseMembers, Ascii;
    ResponseValueSafe(id, r);
    JsonRoundTrip.DocumentRoundTrip(ResponseValue(id, r));
    inner := Json.Object(ResponseMembers(id, r));
    headers := Headers(r);
    HasOne("response", inner);
    HasOne("Content-Type", headers.members[0].value);
    MembersOf(id, r);
  }

  function Headers(r: Response): Json.Value {
    Json.Object(TextMember("Content-Type", if r.contentType == [] then Ascii("application/json") else r.contentType))
  }

  lemma HasOne(key: string, x: Json.Value)
    ensures Has(Json.Object([Json.Member(Ascii(key), x)]), key, x)
  {
    hide Ascii;
    assert FirstNamed(Json.Object([Json.Member(Ascii(key), x)]), key, 0);
  }

  lemma MembersOf(id: Bytes, r: Response)
    ensures var v := Json.Object(ResponseMembers(id, r));
            && Has(v, "requestId", Json.String(id))
            && Has(v, "statusCode", Json.Number(r.code as real))
            && (if r.desc == [] then !HasAny(v, "statusDescription")
                else Has(v, "statusDescription", Json.String(r.desc)))
            && Has(v, "responseHeaders", Headers(r))
            && Has(v, "body", Json.Bool(r.body != []))
  {
    hide Ascii, HasAny;
    var v := Json.Object(ResponseMembers(id, r));
    var n := |v.members|;
    assert FirstNamed(v, "requestId", 0);
    assert FirstNamed(v, "statusCode", 1);
    if r.desc == [] {
      assert n == 4;
      NoneNamed(v, "statusDescription");
    } else {
      assert n == 5 && FirstNamed(v, "statusDescription", 2);
    }
    assert FirstNamed(v, "responseHeaders", n - 2) && v.members[n - 2].value == Headers(r);
    assert FirstNamed(v, "body", n - 1);
  }

  lemma NoneNamed(v: Json.Value, key: string)
    requires v.Object? && forall i :: 0 <= i < |v.members| ==> |v.members[i].key| != |key|
    ensures !HasAny(v, key)
  {
  }
}
