/** The `items` column of the orders table: an item list is stored as one
    text value, the items joined by commas, and read back by splitting on
    commas, with the empty text read as no items. */
module ItemsCodec {

  const Sep: char := ','

  /** `','.join(items)`: empty text only for no items or the single empty
      item, and the first item always leads. */
  function Encode(items: seq<string>): (s: string)
    ensures s == [] <==> items == [] || items == [[]]
    ensures items != [] ==> items[0] <= s
  {
    if |items| == 0 then []
    else if |items| == 1 then items[0]
    else items[0] + [Sep] + Encode(items[1..])
  }

  /** `s.split(',')`: always at least one piece, none holding a comma, and
      joining the pieces gives `s` back. */
  function Split(s: string): (parts: seq<string>)
    ensures |parts| >= 1
    ensures forall i :: 0 <= i < |parts| ==> Sep !in parts[i]
    ensures Encode(parts) == s
  {
    if s == [] then [[]]
    else
      var rest := Split(s[1..]);
      if s[0] == Sep then
        assert s == [Sep] + s[1..];
        [[]] + rest
      else
        var parts := [[s[0]] + rest[0]] + rest[1..];
        assert parts[1..] == rest[1..];
        assert s == [s[0]] + s[1..];
        assert |rest| > 1 ==> Encode(rest) == rest[0] + [Sep] + Encode(rest[1..]);
        parts
  }

  /** `s.split(',') if s else []`: what a read of the column yields. Every
      stored text is the encoding of what it decodes to. */
  function Decode(s: string): (items: seq<string>)
    ensures items == [] <==> s == []
    ensures Encode(items) == s
    ensures forall i :: 0 <= i < |items| ==> Sep !in items[i]
  {
    if s == [] then [] else Split(s)
  }

  /** An item list survives being stored: no item contains the separator,
      and it is not the single empty item (which encodes like no items). */
  predicate Encodable(items: seq<string>) {
    && (forall i :: 0 <= i < |items| ==> Sep !in items[i])
    && items != [[]]
  }

  lemma {:induction false} SplitPlain(a: string)
    requires Sep !in a
    ensures Split(a) == [a]
    decreases |a|
  {
    if a != [] {
      SplitPlain(a[1..]);
      assert a == [a[0]] + a[1..];
    }
  }

  lemma {:induction false} SplitFirst(a: string, b: string)
    requires Sep !in a
    ensures Split(a + [Sep] + b) == [a] + Split(b)
    decreases |a|
  {
    var s := a + [Sep] + b;
    if a == [] {
      assert s == [Sep] + b;
      assert s[1..] == b;
    } else {
      assert s[0] == a[0];
      assert s[1..] == a[1..] + [Sep] + b;
      SplitFirst(a[1..], b);
      assert a == [a[0]] + a[1..];
    }
  }

  lemma {:induction false} SplitEncode(items: seq<string>)
    requires |items| >= 1
    requires forall i :: 0 <= i < |items| ==> Sep !in items[i]
    ensures Split(Encode(items)) == items
    decreases |items|
  {
    if |items| == 1 {
      SplitPlain(items[0]);
    } else {
      SplitEncode(items[1..]);
      SplitFirst(items[0], Encode(items[1..]));
      assert items == [items[0]] + items[1..];
    }
  }

  /** Storing then reading an item list gives it back exactly when it is
      encodable. */
  lemma RoundTrip(items: seq<string>)
    ensures Decode(Encode(items)) == items <==> Encodable(items)
  {
    if Encodable(items) && items != [] {
      SplitEncode(items);
      if |items| == 1 {
        assert items[0] != [];
      } else {
        assert Encode(items) == items[0] + [Sep] + Encode(items[1..]);
        assert Encode(items) != [];
      }
    }
  }

  /** The guarantee the customer flow relies on: items that are non-empty
      and comma-free come back unchanged. The empty list reads back as the
      empty list. */
  lemma RoundTripPlainItems(items: seq<string>)
    requires forall i :: 0 <= i < |items| ==> items[i] != [] && Sep !in items[i]
    ensures Decode(Encode(items)) == items
  {
    RoundTrip(items);
  }

  /** An item that itself contains a comma comes back as several items. */
  lemma CommaSplitsItem()
    ensures Encode(["tea,cake"]) == "tea,cake"
    ensures Decode(Encode(["tea,cake"])) == ["tea", "cake"]
  {
    SplitFirst("tea", "cake");
    SplitPlain("cake");
    assert "tea,cake" == "tea" + [Sep] + "cake";
  }
}
