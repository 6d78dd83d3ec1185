/** The slice of HTTP the handlers touch: headers as an ordered list of
    name/value pairs (names lower-case, as the `http` crate normalises
    them), responses, and the response builder the handlers fill in. */
module Http {
  import opened Common

  datatype Header = Header(name: string, value: string)

  datatype Body =
    | NoBody
    | Text(text: string)
    /** A JSON object, as its members in serialisation order. */
    | Json(members: seq<(string, string)>)
    | Binary(data: seq<Byte>)

  datatype HttpResponse = HttpResponse(status: nat, headers: seq<Header>, body: Body)

  /** `StatusCode::is_success`: the 2xx range. */
  predicate IsSuccess(status: nat) {
    200 <= status <= 299
  }

  predicate HasHeader(headers: seq<Header>, name: string) {
    exists i :: 0 <= i < |headers| && headers[i].name == name
  }

  /** The headers in order, repeats included, less every one called `name`. */
  function WithoutHeader(headers: seq<Header>, name: string): (kept: seq<Header>)
    ensures |kept| <= |headers|
    ensures forall i :: 0 <= i < |kept| ==> kept[i].name != name
  {
    if headers == [] then []
    else
      var last := headers[|headers| - 1];
      WithoutHeader(headers[..|headers| - 1], name) + (if last.name == name then [] else [last])
  }

  /** Filtering distributes over concatenation, so it keeps the relative
      order of the headers it keeps. */
  lemma {:induction false} WithoutHeaderAppend(a: seq<Header>, b: seq<Header>, name: string)
    ensures WithoutHeader(a + b, name) == WithoutHeader(a, name) + WithoutHeader(b, name)
    decreases |b|
  {
    if b == [] {
      assert a + b == a;
    } else {
      var init := b[..|b| - 1];
      assert (a + b)[..|a + b| - 1] == a + init;
      WithoutHeaderAppend(a, init, name);
    }
  }

  /** A header survives the filter exactly when it is in the input and is
      not called `name`. */
  lemma {:induction false} WithoutHeaderMembers(headers: seq<Header>, name: string, h: Header)
    ensures h in WithoutHeader(headers, name) <==> h in headers && h.name != name
    decreases |headers|
  {
    if headers != [] {
      var init := headers[..|headers| - 1];
      WithoutHeaderMembers(init, name, h);
      assert headers == init + [headers[|headers| - 1]];
    }
  }

  /** When no header is called `name`, nothing changes. */
  lemma {:induction false} WithoutAbsentHeader(headers: seq<Header>, name: string)
    requires !HasHeader(headers, name)
    ensures WithoutHeader(headers, name) == headers
    decreases |headers|
  {
    if headers != [] {
      var init := headers[..|headers| - 1];
      assert !HasHeader(init, name) by {
        forall i | 0 <= i < |init| ensures init[i].name != name {
          assert init[i] == headers[i];
        }
      }
      WithoutAbsentHeader(init, name);
    }
  }

  /** `HttpResponse::build(status)`: a response under construction. */
  class ResponseBuilder {
    var status: nat
    var headers: seq<Header>

    constructor (status: nat)
      ensures this.status == status && headers == []
    {
      this.status := status;
      headers := [];
    }

    /** `.header(name, value)`: appends, keeping earlier values of the name. */
    method AppendHeader(name: string, value: string)
      modifies this
      ensures status == old(status)
      ensures headers == old(headers) + [Header(name, value)]
    {
      headers := headers + [Header(name, value)];
    }

    /** `.set_header(name, value)` / `.set(..)`: replaces every earlier value
        of the name. */
    method SetHeader(name: string, value: string)
      modifies this
      ensures status == old(status)
      ensures headers == WithoutHeader(old(headers), name) + [Header(name, value)]
    {
      headers := WithoutHeader(headers, name) + [Header(name, value)];
    }

    /** `.body(..)` / `.finish()`: the finished response. */
    method Finish(body: Body) returns (r: HttpResponse)
      ensures r == HttpResponse(status, headers, body)
    {
      r := HttpResponse(status, headers, body);
    }
  }
}
