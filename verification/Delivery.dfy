/** A message body on its way from publisher to subscriber: printed, queued as a C string, parsed again. */
module Delivery {
  import opened Bytes
  import opened Values
  import opened Printing
  import Decimal
  import Documents
  import Grammar
  import Parsing
  import Reader
  import RoundTrip
  import Writers

  lemma {:induction false} DigitsNoNul(n: nat)
    ensures NoNul(Decimal.Digits(n))
    decreases n
  {
    if n >= 10 {
      DigitsNoNul(n / 10);
    }
  }

  lemma {:induction false} EscapedNoNul(bytes: Text)
    ensures NoNul(EscapedAll(bytes))
    decreases |bytes|
  {
    if bytes != [] {
      assert NoNul(Escaped(bytes[0]));
      EscapedNoNul(bytes[1..]);
    }
  }

  /** No NUL is ever written, whatever bytes the strings hold. */
  lemma {:induction false} PrintNoNul(v: Value)
    requires DoubleFree(v)
    ensures NoNul(Print(v))
    decreases v, 1
  {
    match v
    case Integer(n) =>
      DigitsNoNul(if n < 0 then -n else n);
    case String(bytes) =>
      EscapedNoNul(bytes);
    case Array(elements) =>
      ElementsNoNul(elements, true);
    case Object(members) =>
      MembersNoNul(members, true);
    case _ =>
  }

  lemma {:induction false} ElementsNoNul(elements: seq<Value>, first: bool)
    requires AllDoubleFree(elements)
    ensures NoNul(ElementsText(elements, first))
    decreases elements, 0
  {
    hide Print;
    if elements != [] {
      PrintNoNul(elements[0]);
      ElementsNoNul(elements[1..], false);
    }
  }

  lemma {:induction false} MembersNoNul(members: seq<Member>, first: bool)
    requires MembersDoubleFree(members)
    ensures NoNul(MembersText(members, first))
    decreases members, 0
  {
    hide Print;
    if members != [] {
      EscapedNoNul(members[0].name);
      PrintNoNul(members[0].value);
      MembersNoNul(members[1..], false);
    }
  }

  /** EnqueueMessage's serialisation: print the body, keep what the C string shows. */
  method Serialize(body: Value) returns (json: Text)
    requires Writers.Writable(body)
    ensures DoubleFree(body) && json == Print(body)
  {
    Writers.WritableIsDoubleFree(body);
    var writer := new Writers.Writer();
    Writers.Accept(body, writer);
    json := CString(writer.os);
    assert [] + [] + Print(body) == Print(body);
    PrintNoNul(body);
    CStringWhole(Print(body));
  }

  /** Every subscriber's document is the published tree: same order, same names, same numbers. */
  method Deliver(body: Value) returns (received: Value, error: Reader.ParseError)
    requires Writers.Writable(body)
    ensures error == Reader.NoError && received == body
  {
    hide Grammar.DocumentAt;
    var json := Serialize(body);
    var document := new Parsing.GenericDocument();
    document.ParseStream(json);
    received, error := document.root, document.parseResult;
    RoundTrip.PrintThenParse(body);
    Documents.EventsDetermineTree(received, body);
  }
}
