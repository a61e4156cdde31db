/**
  The decisions behind the script's GitHub calls, with the calls themselves left to
  the caller: the request headers (main.py:205-210), the rules override of
  `get_rules` (main.py:60-77), the label description and create-if-absent decision
  of `create_label_if_not_exists` (main.py:146-182), and the label colour table
  (main.py:243-247).
 */
module GitHub {
  import opened Wrappers
  import opened Text
  import opened Triage

  /** The headers every GitHub request carries; a token that is `None` is sent as "token None". */
  function GetAuthHeader(accessToken: Option<string>): (headers: map<string, string>)
    ensures headers.Keys == {"Authorization", "Accept"}
    ensures headers["Accept"] == "application/vnd.github.v3+json"
  {
    map["Authorization" := "token " + Str(accessToken), "Accept" := "application/vnd.github.v3+json"]
  }

  /** The token can be read back from the Authorization header: the header determines it. */
  lemma AuthHeaderCarriesToken(token: string)
    ensures var value := GetAuthHeader(Some(token))["Authorization"];
      "token " <= value && value[|"token "|..] == token
  {
    var value := GetAuthHeader(Some(token))["Authorization"];
    assert value == "token " + token;
    assert value[|"token "|..] == token;
  }

  /** Two tokens give the same headers only when they are the same token. */
  lemma AuthHeaderInjective(a: string, b: string)
    requires GetAuthHeader(Some(a)) == GetAuthHeader(Some(b))
    ensures a == b
  {
    AuthHeaderCarriesToken(a);
    AuthHeaderCarriesToken(b);
  }

  /** The response of a GET, as far as the script looks at it. */
  datatype Response = Response(status: int, text: string)

  /** The rules text and whether the rules file was requested at all. */
  datatype Rules = Rules(text: string, fetched: bool)

  /** A Python truth test on an optional string: present and non-empty. */
  predicate Truthy(s: Option<string>)
  {
    s.Some? && s.value != ""
  }

  /**
    `get_rules`: a truthy override is used verbatim and nothing is requested; otherwise
    the rules file is requested, and `response` is what that request returns.
   */
  function GetRules(rulesOverride: Option<string>, response: Response): Rules
  {
    if Truthy(rulesOverride) then Rules(rulesOverride.value, false)
    else if response.status == 200 then Rules(response.text, true)
    else Rules("No additional rules provided", true)
  }

  /**
    A truthy override is returned verbatim without a fetch, whatever the file would
    have held; an empty or missing override always fetches, and the two behave alike.
   */
  lemma RulesOverrideShortCircuits(rulesOverride: Option<string>, response: Response, other: Response)
    ensures Truthy(rulesOverride) ==>
      GetRules(rulesOverride, response) == GetRules(rulesOverride, other) == Rules(rulesOverride.value, false)
    ensures !Truthy(rulesOverride) ==>
      GetRules(rulesOverride, response).fetched && GetRules(rulesOverride, response) == GetRules(None, response)
    ensures GetRules(Some(""), response) == GetRules(None, response)
  {
  }

  /**
    The fetched rules are the response body on 200 and a fixed notice on any other
    status. The request asks for the v3 JSON media type, so that body is whatever
    the contents endpoint sends for it, not necessarily the raw file.
   */
  lemma FetchedRulesText(response: Response)
    ensures response.status == 200 ==> GetRules(None, response).text == response.text
    ensures response.status != 200 ==> GetRules(None, response).text == "No additional rules provided"
  {
  }

  /** The fixed description of the three category labels; `None` for any other name. */
  function LabelDescription(labelName: string): (d: Option<string>)
    ensures d.Some? <==> FromValue(labelName).Some?
    ensures d.Some? ==> d.value != ""
  {
    if labelName == "BLUE" then Some("This PR is simple and straightforward.")
    else if labelName == "RED" then Some("This PR is complex and may require more time to review.")
    else if labelName == "BLACK" then Some("This PR has critical implications and must be reviewed by a senior engineer.")
    else None
  }

  /** The GET of the repository's labels, as far as the script looks at it: status and label names. */
  datatype LabelList = LabelList(status: int, names: seq<string>)

  /** The body of the POST that creates a label. */
  datatype LabelCreate = LabelCreate(name: string, color: string, description: Option<string>)

  /**
    `create_label_if_not_exists`: the create to send, if any, given what the listing
    returned. A failed listing creates nothing.
   */
  function CreateLabelIfNotExists(labelName: string, labelColor: string, listing: LabelList): (r: Option<LabelCreate>)
    ensures r.Some? <==> listing.status == 200 && labelName !in listing.names
    ensures r.Some? ==> r.value.name == labelName && r.value.color == labelColor
    ensures r.Some? ==> (r.value.description.Some? <==> FromValue(labelName).Some?)
    ensures r.Some? ==> r.value.description == LabelDescription(labelName)
  {
    if listing.status == 200 && labelName !in listing.names then
      Some(LabelCreate(labelName, labelColor, LabelDescription(labelName)))
    else
      None
  }

  /** The repository's label names once the create, if sent, was answered with `status`. */
  function AfterCreate(names: seq<string>, create: Option<LabelCreate>, status: int): seq<string>
  {
    if create.Some? && status == 201 then names + [create.value.name] else names
  }

  /**
    Idempotence: once the first call's create succeeded (or none was needed), a second
    call on the refreshed listing sends no create; after a failed create it sends one again.
   */
  lemma {:induction false} SecondCallCreatesNothing(labelName: string, labelColor: string, names: seq<string>, status: int)
    ensures var first := CreateLabelIfNotExists(labelName, labelColor, LabelList(200, names));
      var second := CreateLabelIfNotExists(labelName, labelColor, LabelList(200, AfterCreate(names, first, status)));
      && (status == 201 ==> second == None)
      && (second.Some? <==> first.Some? && status != 201)
  {
    var first := CreateLabelIfNotExists(labelName, labelColor, LabelList(200, names));
    if first.Some? && status == 201 {
      var after := AfterCreate(names, first, status);
      assert after[|names|] == labelName;
    }
  }

  /** The labels the script makes sure of, in the order it goes through them, with their colours. */
  const Labels: seq<(string, string)> := [("BLUE", "2A3EDD"), ("RED", "DD2A2A"), ("BLACK", "000000")]

  /** The label table holds one entry per category, each created with a description. */
  lemma LabelTableNamesCategories()
    ensures |Labels| == 3
    ensures forall k :: 0 <= k < |Labels| ==> FromValue(Labels[k].0).Some? && LabelDescription(Labels[k].0).Some?
    ensures forall c :: exists k :: 0 <= k < |Labels| && Labels[k].0 == Value(c)
  {
    assert Labels[0].0 == Value(BLUE) && Labels[1].0 == Value(RED) && Labels[2].0 == Value(BLACK);
    forall c
      ensures exists k :: 0 <= k < |Labels| && Labels[k].0 == Value(c)
    {
      var k := match c case BLUE => 0 case RED => 1 case BLACK => 2;
      assert Labels[k].0 == Value(c);
    }
  }

  /** Whatever label the script attaches to a pull request is one it made sure of beforehand. */
  lemma AttachedLabelIsInTable(r: Reply, n: string)
    requires AddLabel(n) in Publish(r)
    ensures exists k :: 0 <= k < |Labels| && Labels[k].0 == n
  {
    LabelTableNamesCategories();
    assert r.Classified? && n == Value(r.category);
  }
}
