/**
 The two response writers of responsewriter.go, `GatewayResponseWriter` and
 `ALBResponseWriter`, as one state machine. They differ only in the response they
 fill in: the load-balancer response also carries a status description.

 A writer is Fresh until its status is written (`headersWritten` false), then
 Committed; `Finish` fills in the body. The process-wide text classifier is passed
 to `Finish` as the predicate `isText`.
 */
module ResponseWriter {
  import opened Wrappers
  import opened Headers
  import Base64
  import Decimal
  import StatusText

  /** `http.StatusOK`, the status an implicit commit writes. */
  const StatusOK: int := 200

  /** Which gateway the writer answers. */
  datatype Variant = Gateway | ALB

  /**
   `events.APIGatewayProxyResponse` and `events.ALBTargetGroupResponse`, reduced to
   the fields the writers set. A Go nil header map is the empty map here: both read as empty.
   */
  datatype Response =
    | GatewayResponse(statusCode: int, headers: map<string, string>, body: seq<byte>, isBase64Encoded: bool)
    | ALBResponse(statusCode: int, statusDescription: string, headers: map<string, string>,
                  body: seq<byte>, isBase64Encoded: bool)
  {
    function Kind(): Variant {
      if GatewayResponse? then Gateway else ALB
    }
  }

  /**
   The writer's fields: the response being built, the output buffer, the header table
   (None until `Header` first runs, as Go's nil map) and the commit flag.
   */
  datatype Writer = Writer(response: Response, output: seq<byte>, table: Option<HeaderTable>, headersWritten: bool)

  /** The zero value of a writer of the given variant, as a Go struct literal makes it. */
  function NewWriter(v: Variant): (w: Writer)
    ensures w.response.Kind() == v
    ensures Valid(w) && !w.headersWritten && w.output == [] && w.table == None
  {
    var response := match v
      case Gateway => GatewayResponse(0, map[], [], false)
      case ALB => ALBResponse(0, "", map[], [], false);
    Writer(response, [], None, false)
  }

  /** The table as the commit loop sees it: ranging over a nil map visits nothing. */
  function Contents(w: Writer): HeaderTable {
    if w.table.Some? then w.table.value else map[]
  }

  /**
   `Header()`: creates the table on first use and hands it out. Writes through the
   returned map are modelled by `SetHeader` and `DelHeader`.
   */
  function Header(w: Writer): (r: (Writer, HeaderTable))
    ensures r.0.table == Some(r.1)
    ensures r.1 == Contents(w)
    ensures w.table.Some? ==> r.0 == w
    ensures r.0.response == w.response && r.0.output == w.output && r.0.headersWritten == w.headersWritten
  {
    var w' := if w.table.None? then w.(table := Some(map[])) else w;
    (w', w'.table.value)
  }

  /** `w.Header()[name] = values`: the name is used as given, with no canonicalisation. */
  function SetHeader(w: Writer, name: string, values: seq<string>): (r: Writer)
    ensures r.table.Some? && name in r.table.value && r.table.value[name] == values
    ensures forall other :: other != name ==> (other in r.table.value <==> other in Contents(w))
    ensures forall other :: other != name && other in Contents(w) ==> r.table.value[other] == Contents(w)[other]
    ensures r.response == w.response && r.output == w.output && r.headersWritten == w.headersWritten
  {
    var (w', t) := Header(w);
    w'.(table := Some(t[name := values]))
  }

  /** `delete(w.Header(), name)`. */
  function DelHeader(w: Writer, name: string): (r: Writer)
    ensures r.table.Some? && name !in r.table.value
    ensures forall other :: other != name ==> (other in r.table.value <==> other in Contents(w))
    ensures forall other :: other != name && other in Contents(w) ==> r.table.value[other] == Contents(w)[other]
    ensures r.response == w.response && r.output == w.output && r.headersWritten == w.headersWritten
  {
    var (w', t) := Header(w);
    w'.(table := Some(t - {name}))
  }

  /**
   The load-balancer status description, `fmt.Sprintf("%d %s", status, http.StatusText(status))`:
   it reads back as the decimal status, one space, and the reason phrase.
   */
  function Description(status: int): (d: string)
    ensures var k := |Decimal.Show(status)|;
      && |d| > k && d[k] == ' '
      && (forall i :: 0 <= i < k ==> d[i] != ' ')
      && Decimal.Parse(d[..k]) == Some(status)
      && d[k + 1..] == StatusText.StatusText(status)
  {
    Decimal.ParseShow(status);
    var code := Decimal.Show(status);
    var d := code + " " + StatusText.StatusText(status);
    assert d[..|code|] == code;
    d
  }

  /**
   `WriteHeader(status)`: ignored once committed; otherwise records the status (and,
   for the load balancer, its description), commits the header table and sets the flag.
   */
  function WriteHeader(w: Writer, status: int): (r: Writer)
    ensures r.headersWritten
    ensures w.headersWritten ==> r == w
    ensures !w.headersWritten ==>
      && r.response.statusCode == status
      && r.response.headers == Commit(Contents(w))
      && (r.response.ALBResponse? ==> r.response.statusDescription == Description(status))
    ensures r.response.Kind() == w.response.Kind()
    ensures r.response.body == w.response.body && r.response.isBase64Encoded == w.response.isBase64Encoded
    ensures r.output == w.output && r.table == w.table
  {
    if w.headersWritten then w
    else
      var committed := w.response.(statusCode := status, headers := Commit(Contents(w)));
      var described := if committed.ALBResponse? then committed.(statusDescription := Description(status)) else committed;
      w.(response := described, headersWritten := true)
  }

  /**
   `Write(bs)`: commits with status 200 if nothing is committed yet, then appends to
   the output. It reports every byte as written and never fails.
   */
  function Write(w: Writer, bs: seq<byte>): (r: (Writer, int))
    ensures r.1 == |bs|
    ensures r.0.output == w.output + bs
    ensures r.0.headersWritten
    ensures w.headersWritten ==> r.0.response == w.response
    ensures !w.headersWritten ==> r.0.response == WriteHeader(w, StatusOK).response
    ensures r.0.table == w.table
  {
    var committed := if w.headersWritten then w else WriteHeader(w, StatusOK);
    (committed.(output := committed.output + bs), |bs|)
  }

  /** Reading a key of a Go map: a missing key reads as "". */
  function Lookup(m: map<string, string>, name: string): string {
    if name in m then m[name] else ""
  }

  /**
   `finish()`: a body of text type is the output as it is; any other body is the
   base64 encoding of the output, which decodes back to the output exactly.
   */
  function Finish(w: Writer, isText: string -> bool): (r: Writer)
    ensures r.response.isBase64Encoded == !isText(Lookup(w.response.headers, ContentType))
    ensures r.response.isBase64Encoded ==> Base64.Decode(r.response.body) == Some(w.output)
    ensures !r.response.isBase64Encoded ==> r.response.body == w.output
    ensures r.response.Kind() == w.response.Kind()
    ensures r.response.statusCode == w.response.statusCode && r.response.headers == w.response.headers
    ensures r.response.ALBResponse? ==> r.response.statusDescription == w.response.statusDescription
    ensures r.output == w.output && r.table == w.table && r.headersWritten == w.headersWritten
  {
    var contentType := Lookup(w.response.headers, ContentType);
    var encode := !isText(contentType);
    Base64.DecodeEncode(w.output);
    var body := if encode then Base64.Encode(w.output) else w.output;
    w.(response := w.response.(isBase64Encoded := encode, body := body))
  }

  /**
   What holds of every writer the operations reach from `NewWriter`: before the commit
   the response is still zero; after it, the committed map has a non-empty Content-Type
   and the load-balancer description matches the status.
   */
  predicate Valid(w: Writer) {
    if w.headersWritten then
      && ContentType in w.response.headers && w.response.headers[ContentType] != ""
      && (w.response.ALBResponse? ==> w.response.statusDescription == Description(w.response.statusCode))
    else
      && w.response.statusCode == 0 && w.response.headers == map[]
      && (w.response.ALBResponse? ==> w.response.statusDescription == "")
  }

  /** Once committed, a second `WriteHeader` changes nothing: the first status wins. */
  lemma FirstStatusWins(w: Writer, first: int, second: int)
    ensures WriteHeader(WriteHeader(w, first), second) == WriteHeader(w, first)
    ensures !w.headersWritten ==> WriteHeader(WriteHeader(w, first), second).response.statusCode == first
  {
  }

  /** Edits to the header table after the commit do not reach the committed response. */
  lemma CommittedHeadersAreSnapshot(w: Writer, name: string, values: seq<string>)
    requires w.headersWritten
    ensures SetHeader(w, name, values).response == w.response
    ensures DelHeader(w, name).response == w.response
    ensures WriteHeader(SetHeader(w, name, values), 0).response == w.response
  {
  }

  /** Finishing twice gives the same response as finishing once. */
  lemma FinishIdempotent(w: Writer, isText: string -> bool)
    ensures Finish(Finish(w, isText), isText) == Finish(w, isText)
  {
  }
}
