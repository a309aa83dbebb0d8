/** The response builder: a buffer that is reallocated for each part to exactly the size that part needs. */
module HttpResponses {
  import opened Bytes
  import opened ByteArrays
  import opened ResponseSpec

  class HttpResponse {
    var response: array?<byte>
    var responseLen: nat
    var minorVersion: int
    var code: Status
    var body: bytes
    var finalised: bool
    /** The headers that have been added. */
    ghost var headers: seq<Pair>

    ghost predicate Valid()
      reads this
    {
      if response == null then responseLen == 0 else responseLen <= response.Length
    }

    ghost function Contents(): bytes
      requires Valid()
      reads this, response
    {
      if response == null then [] else response[..responseLen]
    }

    /** A status line and headers are there, and nothing else yet. */
    ghost predicate Building()
      reads this, response
    {
      && Valid() && !finalised && response != null
      && Contents() == StatusText(minorVersion, code) + HeaderTexts(headers)
    }

    constructor (code: Status, minorVersion: int)
      ensures Valid() && Contents() == [] && !finalised && headers == [] && body == [] && response == null
      ensures this.code == code && this.minorVersion == minorVersion
    {
      response, responseLen, this.minorVersion, this.code := null, 0, minorVersion, code;
      body, finalised, headers := [], false, [];
    }

    method SetBody(newBody: bytes)
      modifies `body
      ensures body == newBody
    {
      body := newBody;
    }

    /** realloc(response, response_len + len) */
    method Grow(len: nat)
      requires Valid()
      modifies `response
      ensures Valid() && Contents() == old(Contents()) && responseLen == old(responseLen)
      ensures response != null && fresh(response) && response.Length == responseLen + len
    {
      var a := new byte[responseLen + len](_ => '\0');
      if response != null {
        forall i | 0 <= i < responseLen {
          a[i] := response[i];
        }
      }
      response := a;
      assert response[..responseLen] == old(Contents());
    }

    /** memcpy to the end of what is there. */
    method Put(text: bytes)
      requires Valid() && response != null && responseLen + |text| <= response.Length
      modifies `responseLen, response
      ensures Valid() && Contents() == old(Contents()) + text && responseLen == old(responseLen) + |text|
    {
      forall i | 0 <= i < |text| {
        response[responseLen + i] := text[i];
      }
      responseLen := responseLen + |text|;
      assert response[..responseLen] == old(response[..responseLen]) + text;
    }

    /** The line is cut where snprintf has no more room; one byte more is allocated for its NUL. */
    method AddStatusLine()
      requires Valid() && responseLen == 0 && !finalised && headers == []
      modifies this, response
      ensures Building() && headers == [] && code == old(code) && minorVersion == old(minorVersion)
      ensures body == old(body) && fresh(response)
    {
      hide WantedStatusLine, Shown, Reason, StatusText, HeaderTexts;
      var len := 11 + |Shown(code)| + 1 + |Reason(code)|;
      Grow(len + 1);
      var wanted := WantedStatusLine(minorVersion, code);
      StatusLength(minorVersion, code);
      StatusCut(minorVersion, code);
      Put(if |wanted| <= len then wanted else wanted[..len]);
    }

    method AddHeader(name: bytes, value: bytes)
      requires Building()
      modifies `response, `responseLen, `headers, response
      ensures Building() && headers == old(headers) + [(name, value)] && fresh(response)
    {
      hide StatusText, HeaderTexts, HeaderText;
      AddLine(name, value);
      headers := headers + [(name, value)];
      HeaderTextsAnd(old(headers), (name, value));
    }

    method AddLine(name: bytes, value: bytes)
      requires Valid()
      modifies `response, `responseLen, response
      ensures Valid() && response != null && fresh(response) && Contents() == old(Contents()) + HeaderText((name, value))
    {
      hide HeaderText;
      var len := |name| + 2 + |value| + 2;
      Grow(len);
      Put(name);
      Put(": ");
      Put(value);
      Put("\r\n");
      HeaderTextOf(old(Contents()), name, value);
    }

    /** The headers of a response that has a body: its length, the end, and the body itself. */
    method Finalise()
      requires Building()
      modifies this, response
      ensures Valid() && finalised && code == old(code) && minorVersion == old(minorVersion) && body == old(body)
      ensures headers == old(headers) + [LengthHeader(body)]
      ensures Contents() == Whole(minorVersion, code, old(headers), body)
    {
      hide StatusText, HeaderTexts, Decimal;
      AddHeader("Content-Length", Decimal(|body|));
      Grow(2);
      Put("\r\n");
      if |body| != 0 {
        Grow(|body|);
        Put(body);
      }
      finalised := true;
      assert Contents() == Whole(minorVersion, code, old(headers), body);
    }

    /** GetResponseByteArray: asked again, it gives the same bytes. */
    method GetResponseByteArray() returns (r: ByteArray)
      requires Valid() && (finalised || Building())
      modifies this, response
      ensures Valid() && finalised && fresh(r) && r.Valid() && r.Contents() == Contents()
      ensures old(finalised) ==> Contents() == old(Contents())
      ensures !old(finalised) ==> Contents() == Whole(old(minorVersion), old(code), old(headers), old(body))
    {
      hide StatusText, HeaderTexts, Decimal, Whole;
      if !finalised {
        Finalise();
      }
      r := new ByteArray.Copy(if response == null then [] else response[..responseLen]);
    }
  }

  lemma HeaderTextOf(before: bytes, name: bytes, value: bytes)
    ensures before + name + ": " + value + "\r\n" == before + HeaderText((name, value))
  {
  }

  lemma StatusLength(minor: int, c: Status)
    ensures |StatusText(minor, c)| == 11 + |Shown(c)| + 1 + |Reason(c)|
  {
    hide Shown, Reason;
    assert |Signed(minor)| >= 1;
  }

  lemma StatusCut(minor: int, c: Status)
    ensures var wanted, len := WantedStatusLine(minor, c), 11 + |Shown(c)| + 1 + |Reason(c)|;
            [] + (if |wanted| <= len then wanted else wanted[..len]) == StatusText(minor, c) + HeaderTexts([])
  {
    hide Shown, Reason, WantedStatusLine;
    assert StatusText(minor, c) + [] == StatusText(minor, c);
  }

  lemma {:induction false} HeaderTextsAnd(hs: seq<Pair>, h: Pair)
    ensures HeaderTexts(hs + [h]) == HeaderTexts(hs) + HeaderText(h)
  {
    hide HeaderText;
    if hs == [] {
      assert hs + [h] == [h] && [h][1..] == [];
    } else {
      assert (hs + [h])[1..] == hs[1..] + [h];
      HeaderTextsAnd(hs[1..], h);
    }
  }
}
