# pylon response writers in Dafny

pylon adapts Go `http.Handler`s to AWS Lambda. A handler writes into a response
writer. When the handler returns, the writer turns what it gathered into a single
gateway response. There are two writers: one for API Gateway proxy responses
(`GatewayResponseWriter`) and one for Application Load Balancer target-group
responses (`ALBResponseWriter`). They behave the same, except that the load-balancer
response also carries a status description such as `"404 Not Found"`.

This project models both writers as one state machine, with a variant tag on the
response:

- `Header` hands out the header table. The table is created lazily.
- `Write` commits status 200 if nothing is committed yet, then appends to the buffer.
- `WriteHeader` commits once. The status is recorded and the multi-value table is
  collapsed to single values, last value winning. Names without values are dropped.
  A `Content-Type` of `text/plain; charset=utf-8` is added when none is set or it is
  empty.
- `finish` chooses between a text body and base64. The content-type classifier makes
  that choice.

Modules:

- `Wrappers`: `Option` and `byte` (`bv8`).
- `Base64`: standard-alphabet base64 with padding (section 4 of RFC 4648). It includes
  a strict decoder, proved to be the exact inverse.
- `Decimal`: Go's `%d` for an `int`, with a parser that reads it back.
- `StatusText`: the reason-phrase table of Go's `net/http`.
- `Headers`: the header table, and the commit-time collapse as a function and as a
  loop in arbitrary map order.
- `ResponseWriter`: the writer state and its operations.
- `TextClassifier`: what the writer assumes of the classifier. It also holds the
  classifier that the default pattern list builds.
- `Handler`: a handler's calls as a list of actions, run in order and then finished.
- `Scenarios`: whole invocations on concrete inputs.

The classifier is process-wide state in the source. Here it is a parameter
`isText: string -> bool` of `Finish`. The writer relies on two facts about it:
`isText("text/plain; charset=utf-8")` holds and `isText("")` does not
(`TextClassifier.Assumptions`). `TextClassifier.DefaultMeetsAssumptions` shows that the
default classifier satisfies both.

Three behaviours of the code that are easy to miss:

- `MatchString` is unanchored, so `x-text/csv` is text
  (`TextClassifier.DefaultIsUnanchored`). Any prefix works, letters included, because the pattern has no leading `\b`.
- `SetTextContentTypes` reads `types[0]` before anything else, so an empty list
  panics.
- The classifier is replaced by a plain assignment to a package variable, with no
  synchronisation.

## Model

| member | source | states |
|---|---|---|
| Headers.Commit | responsewriter.go:106-117 | The committed map always has a non-empty Content-Type: the last value of the table's Content-Type when that is non-empty, otherwise `text/plain; charset=utf-8`. Every other name is present iff it has at least one value, and maps to its last value. No other names appear. |
| Headers.CommitByIteration | responsewriter.go:106-111 | Ranging over the table in any order and keeping each name's last value builds exactly `Commit`'s map. |
| Headers.CommitOfSingletons | responsewriter.go:106-115 | Expanding a committed map to one-value lists and committing again gives the same map back. |
| ResponseWriter.NewWriter | responsewriter.go:57-71 | The zero writer is uncommitted, has no table and an empty buffer, and satisfies the writer invariant. |
| ResponseWriter.Header | responsewriter.go:73-78 | `Header` creates the table only if it is nil and returns the writer's own table. Nothing else changes. |
| ResponseWriter.SetHeader | responsewriter.go:73-78 | Storing through the returned table binds exactly that name and leaves every other entry, the response and the buffer alone. |
| ResponseWriter.DelHeader | responsewriter.go:73-78 | Deleting through the returned table removes exactly that name and leaves every other entry, the response and the buffer alone. |
| ResponseWriter.Description | responsewriter.go:158 | The description splits at its first space: the left part parses back to the status code, and the right part is the reason phrase. |
| ResponseWriter.WriteHeader | responsewriter.go:99-120 | After a commit, the call returns the writer unchanged. Before one, it records the status, stores the collapsed table and (for the load balancer) the matching description, and sets the commit flag. The buffer and the table are untouched. |
| ResponseWriter.Write | responsewriter.go:86-97 | `Write` returns the length of its argument and appends it to the buffer. The writer is committed afterwards: with status 200 if it was not before, otherwise with the response unchanged. |
| ResponseWriter.Finish | responsewriter.go:122-150 | The base64 flag is the negation of the classifier on the committed Content-Type ("" when none). A base64 body decodes back to the buffer exactly; a text body is the buffer verbatim. Status, headers and description are kept. |
| ResponseWriter.FirstStatusWins | responsewriter.go:99-102 | A second `WriteHeader` changes nothing, so the first status stays. |
| ResponseWriter.CommittedHeadersAreSnapshot | responsewriter.go:117 | After the commit, storing or deleting table entries, or calling `WriteHeader` again, leaves the response as it was. |
| ResponseWriter.FinishIdempotent | responsewriter.go:123-136 | Finishing twice gives what finishing once gives. |
| Handler.RunOutput | responsewriter.go:86-91 | After any sequence of calls, the buffer is the old buffer followed by every written chunk, in order. |
| Handler.RunAfterCommit | responsewriter.go:99-102 | No sequence of calls on a committed writer changes its response. |
| Handler.RunWithoutCommit | responsewriter.go:73-78 | Calls that only touch the header table neither commit nor change the response. |
| Handler.FirstCommitWins | responsewriter.go:86-120 | The first `Write` or `WriteHeader` of a run decides the response: its status (200 for `Write`) and the table as it stood just before it. |
| Handler.NoCommitKeepsZeroStatus | responsewriter.go:57-63 | A run with no `Write` or `WriteHeader` leaves status 0 and no headers. |
| Handler.StepPreservesValid | responsewriter.go:113-115 | Every call keeps the writer invariant: a committed writer has a non-empty Content-Type and a description matching its status. |
| Handler.RunPreservesValid | responsewriter.go:113-115 | Every run from a valid writer ends in a valid writer. |
| Handler.ServeBody | responsewriter.go:129-135 | The finished body is everything the handler wrote: verbatim for text, otherwise base64 that decodes back to it. |
| Handler.ServeCommittedHeaders | responsewriter.go:113-117 | After any run that commits, the finished response has a non-empty Content-Type, and a load-balancer description that matches the status. |
| Base64.Encode | responsewriter.go:132 | `base64.StdEncoding.EncodeToString`: each group of three octets becomes four alphabet characters, and a final one or two octets become a padded group. The result's length is a multiple of four, and it is empty exactly when the input is. |
| Base64.Rfc4648Vectors | responsewriter.go:132 | The encoder reproduces the test vectors of section 10 of RFC 4648, from "f" to "foobar". |
| Base64.AlphabetEnds | responsewriter.go:132 | All-zero, all-one and `0xFB 0xEF 0xBE` groups encode as `AAAA`, `////` and `++++`. This fixes both ends of the alphabet and the order of the bits. |
| Base64.EncodeLength | responsewriter.go:132 | The encoding of n bytes has 4 * ceil(n / 3) characters. |
| Base64.EncodeAlphabet | responsewriter.go:132 | The encoding uses only the standard alphabet, with `=` allowed only in the last two positions. |
| Base64.DecodeEncode | responsewriter.go:132 | Decoding the encoding of any byte sequence gives that sequence back. |
| Base64.EncodeDecode | responsewriter.go:132 | Any string the decoder accepts is the encoding of what it decodes to. |
| Base64.DecodeIffEncode | responsewriter.go:132 | `s` decodes to `bs` if and only if `s` is the encoding of `bs`. |
| Decimal.Show | responsewriter.go:158 | `%d` output is non-empty digits, with a leading minus exactly for negative numbers. The digits have no leading zero: the first one is `0` only for zero itself. |
| Decimal.ParseShow | responsewriter.go:158 | Parsing the `%d` text of any integer gives that integer back. |
| TextClassifier.DefaultIsText | responsewriter.go:15-38 | The default classifier is true exactly when some substring matches one of the default alternatives in full and ends at an ASCII word boundary. Whatever it accepts contains `text/` or `application/`. |
| TextClassifier.DefaultRejectsOctetStream | responsewriter.go:129 | `application/octet-stream` is not text. This holds because every alternative needs an `x`, a `j` or a `+`, and any content type without those is not text. |
| TextClassifier.DefaultRejectsMedia | responsewriter.go:129 | `image/png`, `audio/mpeg` and "" are not text, so they are served as base64. |
| TextClassifier.DefaultMeetsAssumptions | responsewriter.go:15-38 | The classifier built from the default list treats `text/plain; charset=utf-8` as text and "" as not text. |
| TextClassifier.DefaultRecognisesJsonAndXml | responsewriter.go:15-21 | The default list classifies `application/json` and `application/xml` as text. |
| TextClassifier.DefaultRecognisesJsonSuffix | responsewriter.go:18 | The default list classifies a `+json` structured type as text. |
| TextClassifier.DefaultRecognisesXmlSuffix | responsewriter.go:20 | The default list classifies a `+xml` structured type as text. |
| TextClassifier.DefaultIsUnanchored | responsewriter.go:129 | The match is unanchored, so a type that only contains `text/...` after a prefix counts as text. |
| Scenarios.JsonRun | responsewriter.go:99-117 | Setting `application/json` and then `WriteHeader(201)` and a write commits 201 with exactly that Content-Type, and buffers the payload. |
| Scenarios.JsonCreated | responsewriter.go:123-135 | That JSON response is served under the default classifier as text, with the payload as its body. |
| Scenarios.ImplicitOk | responsewriter.go:86-91 | A handler that only writes gets status 200, just the default Content-Type, and a text body equal to the payload. |
| Scenarios.NothingWritten | responsewriter.go:122-136 | A handler that does nothing gets status 0, no headers, the base64 flag set and an empty body. |
| Scenarios.BinaryPayload | responsewriter.go:129-133 | Bytes written under a non-text Content-Type are served as base64 that decodes to them, with status 200. |
| Scenarios.BinaryPayloadUnderDefault | responsewriter.go:126-133 | Under the default classifier, bytes written as `application/octet-stream` are served as base64 that decodes to them. |
| Scenarios.NotFoundDescription | responsewriter.go:158 | A load-balancer `WriteHeader(404)` yields status 404 with description `404 Not Found`. |
| Scenarios.NotFoundText | responsewriter.go:158 | The description of 404 is `404 Not Found`. |
| Scenarios.CollapseTable | responsewriter.go:106-115 | Collapsing `X-Tag: [a, b]` and `X-Empty: []` gives `X-Tag: b` plus the default Content-Type. |
| Scenarios.CollapseOnCommit | responsewriter.go:106-117 | The same table, committed through `WriteHeader(204)`, is what the response carries. |
| Scenarios.LateHeaderIgnored | responsewriter.go:117 | A header set after the first write does not reach the response. |

## Left out

- `SetTextContentTypes` and the regular-expression engine: the model takes the
  classifier as a predicate. `TextClassifier.DefaultIsText` writes out only the
  pattern built from the default list. A custom list, an invalid pattern and the
  empty-list panic are not modelled.
- `init` and its `log.Fatal`: start-up configuration with the default list cannot
  fail, and process exit is outside the model.
- Concurrency: the classifier is a package variable shared by all requests. Each
  writer belongs to a single request.
- `PylonResponse`: it is declared next to the writers but none of them uses it.
- `MultiValueHeaders` and the JSON field tags of the response types: the writers
  never set the former, and serialisation is outside the model.
- Header-name canonicalisation of `http.Header`'s `Set`, `Add`, `Get` and `Del`: only
  storing and deleting through the returned map (`SetHeader`, `DelHeader`) is
  modelled, with names used exactly as given.
- Response bodies are byte sequences. Go's `string` body holds the same bytes.
  `output.String()` copies them verbatim and base64 output is ASCII.
- ResponseWriter.Write: Go returns `(int, error)` and the error from
  `bytes.Buffer.Write` is always nil, so the model returns only the count.
  Growth beyond memory (a panic in Go) is not modelled.
- Integers are unbounded: Go's `int` status is never near its width limit, and
  `%d` is modelled for every integer.
- StatusText.StatusText: `http.StatusText` belongs to Go's `net/http`, which is not
  part of this model. Its table is transcribed as a function with no contract. An
  unknown code maps to "".
- Base64.Decode: the source only encodes. The decoder is this model's own strict
  inverse, used to state the round trip. Go's decoder is not modelled, because the
  writers never call it.
- Map iteration order in the commit loop is arbitrary in Go.
  `Headers.CommitByIteration` picks any remaining key at each step, and its result
  does not depend on the order.
