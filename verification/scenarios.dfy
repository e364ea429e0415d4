/**
 Whole invocations on concrete inputs: the behaviours a caller of the writers sees.
 */
module Scenarios {
  import opened Wrappers
  import opened Headers
  import opened ResponseWriter
  import opened Handler
  import Base64
  import TextClassifier
  import Decimal
  import StatusText

  /** The calls of a JSON handler that answers 201 Created. */
  function JsonActions(payload: seq<byte>): seq<Action> {
    [SetHeaderAction(ContentType, ["application/json"]), WriteHeaderAction(201), WriteAction(payload)]
  }

  /** Its run commits 201 with exactly the Content-Type it set, and buffers the payload. */
  lemma JsonRun(v: Variant, payload: seq<byte>)
    ensures var w := Run(NewWriter(v), JsonActions(payload));
      && w.response.statusCode == 201
      && w.response.headers == map[ContentType := "application/json"]
      && w.output == payload
  {
    var actions := JsonActions(payload);
    var w1 := Step(NewWriter(v), actions[0]);
    var m := map[ContentType := "application/json"];
    assert Contents(w1) == map name | name in m :: [m[name]];
    CommitOfSingletons(m);
    var w2 := Step(w1, actions[1]);
    assert actions == [actions[0]] + ([actions[1]] + [actions[2]]);
    RunStep(NewWriter(v), actions[0], [actions[1]] + [actions[2]]);
    RunStep(w1, actions[1], [actions[2]]);
    RunOne(w2, actions[2]);
  }

  /** A JSON handler that sets its own status: everything it chose reaches the response, as text. */
  lemma JsonCreated(v: Variant, payload: seq<byte>)
    ensures var r := Serve(v, JsonActions(payload), TextClassifier.DefaultIsText);
      && r.statusCode == 201
      && r.headers == map[ContentType := "application/json"]
      && !r.isBase64Encoded
      && r.body == payload
  {
    TextClassifier.DefaultRecognisesJsonAndXml();
    JsonRun(v, payload);
  }

  /** A handler that only writes gets status 200 and the default Content-Type, served as text. */
  lemma ImplicitOk(v: Variant, payload: seq<byte>, isText: string -> bool)
    requires TextClassifier.Assumptions(isText)
    ensures var r := Serve(v, [WriteAction(payload)], isText);
      && r.statusCode == 200
      && r.headers == map[ContentType := DefaultContentType]
      && !r.isBase64Encoded
      && r.body == payload
  {
    var w := Step(NewWriter(v), WriteAction(payload));
    RunOne(NewWriter(v), WriteAction(payload));
    assert Contents(NewWriter(v)) == map[];
    assert w.response.headers == map[ContentType := DefaultContentType];
  }

  /**
   A handler that does nothing: status 0, no headers at all, and since the empty
   Content-Type is not text, a base64 flag over an empty body.
   */
  lemma NothingWritten(v: Variant, isText: string -> bool)
    requires TextClassifier.Assumptions(isText)
    ensures var r := Serve(v, [], isText);
      && r.statusCode == 0
      && r.headers == map[]
      && r.isBase64Encoded
      && r.body == []
      && (r.ALBResponse? ==> r.statusDescription == "")
  {
    Base64.EncodeLength([]);
  }

  /** Binary output under a non-text Content-Type is base64 that decodes to the bytes written. */
  lemma BinaryPayload(v: Variant, payload: seq<byte>, isText: string -> bool)
    requires !isText("application/octet-stream")
    ensures var r := Serve(v, [SetHeaderAction(ContentType, ["application/octet-stream"]), WriteAction(payload)], isText);
      && r.statusCode == 200
      && r.isBase64Encoded
      && Base64.Decode(r.body) == Some(payload)
  {
    var actions := [SetHeaderAction(ContentType, ["application/octet-stream"]), WriteAction(payload)];
    var w1 := Step(NewWriter(v), actions[0]);
    assert Contents(w1) == map[ContentType := ["application/octet-stream"]];
    var w2 := Step(w1, actions[1]);
    assert w2.response.headers[ContentType] == "application/octet-stream";
    assert actions == [actions[0]] + [actions[1]];
    RunStep(NewWriter(v), actions[0], [actions[1]]);
    RunOne(w1, actions[1]);
    ServeBody(v, actions, isText);
    assert Written(actions) == payload;
  }

  /** The same handler under the default classifier: octet streams are sent as base64. */
  lemma BinaryPayloadUnderDefault(v: Variant, payload: seq<byte>)
    ensures var r := Serve(v, [SetHeaderAction(ContentType, ["application/octet-stream"]), WriteAction(payload)],
                           TextClassifier.DefaultIsText);
      && r.isBase64Encoded
      && Base64.Decode(r.body) == Some(payload)
  {
    TextClassifier.DefaultRejectsOctetStream();
    BinaryPayload(v, payload, TextClassifier.DefaultIsText);
  }

  /** The load-balancer description of a 404 is the code and its reason phrase. */
  lemma NotFoundDescription(payload: seq<byte>, isText: string -> bool)
    ensures var r := Serve(ALB, [WriteHeaderAction(404), WriteAction(payload)], isText);
      && r.statusCode == 404
      && r.ALBResponse?
      && r.statusDescription == "404 Not Found"
  {
    var actions := [WriteHeaderAction(404), WriteAction(payload)];
    var w1 := Step(NewWriter(ALB), actions[0]);
    assert actions == [actions[0]] + [actions[1]];
    RunStep(NewWriter(ALB), actions[0], [actions[1]]);
    RunOne(w1, actions[1]);
    NotFoundText();
  }

  /** The text of the 404 description. */
  lemma NotFoundText()
    ensures Description(404) == "404 Not Found"
  {
    ShowFourOhFour();
    assert StatusText.StatusText(404) == "Not Found";
  }

  /** `%d` of 404. */
  lemma ShowFourOhFour()
    ensures Decimal.Show(404) == "404"
  {
    assert Decimal.ShowNat(4) == "4";
    assert Decimal.ShowNat(40) == Decimal.ShowNat(4) + "0";
    assert Decimal.ShowNat(404) == Decimal.ShowNat(40) + "4";
  }

  /**
   Collapsing keeps the last value of each name, drops names without values, and adds
   the default Content-Type when none is set.
   */
  lemma CollapseOnCommit(v: Variant)
    ensures Run(NewWriter(v), [SetHeaderAction("X-Tag", ["a", "b"]), SetHeaderAction("X-Empty", []), WriteHeaderAction(204)])
              .response.headers == map["X-Tag" := "b", ContentType := DefaultContentType]
  {
    var a0, a1, a2 := SetHeaderAction("X-Tag", ["a", "b"]), SetHeaderAction("X-Empty", []), WriteHeaderAction(204);
    var w1 := Step(NewWriter(v), a0);
    var w := Step(w1, a1);
    assert [a0, a1, a2] == [a0] + ([a1] + [a2]);
    RunStep(NewWriter(v), a0, [a1] + [a2]);
    RunStep(w1, a1, [a2]);
    RunOne(w, a2);
    assert Contents(w) == map["X-Tag" := ["a", "b"], "X-Empty" := []];
    CollapseTable();
  }

  /** The collapse of a table with a two-valued name and an empty one. */
  lemma CollapseTable()
    ensures Commit(map["X-Tag" := ["a", "b"], "X-Empty" := []]) == map["X-Tag" := "b", ContentType := DefaultContentType]
  {
    var t := map["X-Tag" := ["a", "b"], "X-Empty" := []];
    var m := Commit(t);
    assert HasValue(t, "X-Tag") && !HasValue(t, "X-Empty") && !HasValue(t, ContentType);
    assert m.Keys == {"X-Tag", ContentType};
  }

  /** A header set after the first write does not appear in the response. */
  lemma LateHeaderIgnored(v: Variant, payload: seq<byte>)
    ensures "X-Late" !in Run(NewWriter(v), [WriteAction(payload), SetHeaderAction("X-Late", ["1"])]).response.headers
  {
    var a0, a1 := WriteAction(payload), SetHeaderAction("X-Late", ["1"]);
    var w := Step(NewWriter(v), a0);
    assert [a0, a1] == [a0] + [a1];
    RunStep(NewWriter(v), a0, [a1]);
    RunOne(w, a1);
    assert w.response.headers == Commit(map[]);
  }
}
