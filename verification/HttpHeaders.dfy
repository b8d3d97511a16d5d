/**
 The header store: an ordered multimap from names to values that ignores the case of
 names, and the class that keeps it in slots which are recycled after a clear.
 */
module HttpHeaders {
  import opened Basics
  import opened Strings

  datatype Header = Header(name: string, values: seq<string>)

  predicate SameName(a: string, b: string) { ToLower(a) == ToLower(b) }

  function IndexOf(h: seq<Header>, name: string): (i: nat)
    ensures i <= |h|
    ensures forall k :: 0 <= k < i ==> !SameName(h[k].name, name)
    ensures i < |h| ==> SameName(h[i].name, name)
  {
    if h == [] then 0
    else if SameName(h[0].name, name) then 0
    else 1 + IndexOf(h[1..], name)
  }

  /** The headers after looking a name up, creating it without values if missing. */
  function WithName(h: seq<Header>, name: string): seq<Header> {
    if IndexOf(h, name) < |h| then h else h + [Header(name, [])]
  }

  /** Values appended to those of one header. */
  function Extended(h: seq<Header>, i: nat, values: seq<string>): (r: seq<Header>)
    requires i < |h|
    ensures |r| == |h|
  {
    h[i := Header(h[i].name, h[i].values + values)]
  }

  lemma ExtendedTwice(h: seq<Header>, i: nat, v: seq<string>, w: seq<string>)
    requires i < |h|
    ensures Extended(Extended(h, i, v), i, w) == Extended(h, i, v + w) && Extended(h, i, []) == h
  {
    assert h[i].values + v + w == h[i].values + (v + w);
    assert h[i].values + [] == h[i].values;
  }

  function WithValues(h: seq<Header>, name: string, values: seq<string>): (r: seq<Header>)
    ensures |r| == |WithName(h, name)|
  {
    Extended(WithName(h, name), IndexOf(h, name), values)
  }

  /** What a caller sees under a name: all its values, in the order of arrival. */
  function ValuesOf(h: seq<Header>, name: string): seq<string> {
    if IndexOf(h, name) < |h| then h[IndexOf(h, name)].values else []
  }

  ghost predicate DistinctNames(h: seq<Header>) {
    forall i, j :: 0 <= i < j < |h| ==> !SameName(h[i].name, h[j].name)
  }

  lemma IndexIs(h: seq<Header>, name: string, i: nat)
    requires i <= |h| && (forall k :: 0 <= k < i ==> !SameName(h[k].name, name))
    requires i < |h| ==> SameName(h[i].name, name)
    ensures IndexOf(h, name) == i
  {
  }

  lemma AddingKeepsNames(h: seq<Header>, name: string, values: seq<string>)
    requires DistinctNames(h)
    ensures var r := WithValues(h, name, values);
      && DistinctNames(r)
      && |h| <= |r|
      && (forall k :: 0 <= k < |h| ==> r[k].name == h[k].name)
      && (|r| > |h| <==> IndexOf(h, name) == |h|)
  {
    hide ToLower;
    var i, r := IndexOf(h, name), WithValues(h, name, values);
    assert forall k :: 0 <= k < |r| ==> r[k].name == if k < |h| then h[k].name else name;
  }

  /** Adding values goes to one name only, behind those it has, and keeps names distinct and in order. */
  lemma AddingValues(h: seq<Header>, name: string, values: seq<string>, other: string)
    requires DistinctNames(h)
    ensures var r := WithValues(h, name, values);
      && ValuesOf(r, other) == ValuesOf(h, other) + (if SameName(name, other) then values else [])
      && DistinctNames(r)
      && |h| <= |r|
      && (forall k :: 0 <= k < |h| ==> r[k].name == h[k].name)
  {
    hide ToLower;
    AddingKeepsNames(h, name, values);
    var i, r := IndexOf(h, name), WithValues(h, name, values);
    if SameName(name, other) {
      IndexIs(h, other, i);
      IndexIs(r, other, i);
    } else {
      var j := IndexOf(h, other);
      if j == |h| { IndexIs(r, other, |r|); } else { IndexIs(r, other, j); }
    }
  }

  /** A header slot: past its length are strings of earlier uses. */
  class HttpHeader {
    var name: string
    var values: seq<string>
    var length: nat

    ghost predicate Valid()
      reads this
    {
      length <= |values|
    }

    ghost function Live(): Header
      requires Valid()
      reads this
    {
      Header(name, values[..length])
    }

    constructor ()
      ensures Valid() && Live() == Header("", [])
    {
      name, values, length := "", [], 0;
    }

    method Clear()
      requires Valid()
      modifies this
      ensures Valid() && Live() == Header(old(name), [])
    {
      length := 0;
    }

    method SetName(text: string)
      requires Valid()
      modifies this
      ensures Valid() && Live() == Header(text, old(Live()).values)
    {
      name := text;
    }

    /** A slot for one more value; it may still hold an earlier string. */
    method AppendValue() returns (i: nat)
      requires Valid()
      modifies this
      ensures Valid() && i == old(length) && length == i + 1
      ensures name == old(name) && values[..i] == old(values[..length])
    {
      if length == |values| {
        values := values + [""];
      }
      i := length;
      length := length + 1;
    }

    method SetValue(i: nat, text: string)
      requires Valid() && i < length
      modifies this
      ensures Valid() && Live() == Header(old(name), old(Live()).values[i := text])
    {
      values := values[i := text];
    }

    method GetValue(i: nat) returns (value: Option<string>)
      requires Valid()
      ensures value == if i < |Live().values| then Some(Live().values[i]) else None
    {
      if i >= length {
        return None;
      }
      return Some(values[i]);
    }
  }

  class HttpHeaders {
    var slots: seq<HttpHeader>
    var length: nat

    ghost predicate Valid()
      reads this, slots
    {
      && length <= |slots|
      && (forall i :: 0 <= i < |slots| ==> slots[i].Valid())
      && (forall i, j :: 0 <= i < j < |slots| ==> slots[i] != slots[j])
    }

    ghost function Live(): (h: seq<Header>)
      requires Valid()
      reads this, slots
      ensures |h| == length && forall i :: 0 <= i < length ==> h[i] == slots[i].Live()
    {
      seq(length, i requires 0 <= i < length <= |slots| && (forall j :: 0 <= j < |slots| ==> slots[j].Valid())
                    reads this, slots => slots[i].Live())
    }

    constructor ()
      ensures Valid() && Live() == [] && slots == []
    {
      slots, length := [], 0;
    }

    method Clear()
      requires Valid()
      modifies this
      ensures Valid() && Live() == [] && slots == old(slots)
    {
      length := 0;
    }

    method Get(i: nat) returns (r: HttpHeader?)
      requires Valid()
      ensures if i < |Live()| then r != null && r.Valid() && r.Live() == Live()[i] && r in slots else r == null
    {
      if i >= length {
        return null;
      }
      return slots[i];
    }

    /** The search loop of the lookup. */
    method Search(name: string) returns (i: nat)
      requires Valid()
      ensures i == IndexOf(Live(), name)
    {
      hide ToLower;
      i := 0;
      while i < length
        invariant i <= length
        invariant forall k :: 0 <= k < i ==> !SameName(Live()[k].name, name)
      {
        var diff := CompareIgnoringCase(slots[i].name, name);
        if diff == 0 {
          IndexIs(Live(), name, i);
          return i;
        }
        i := i + 1;
      }
      IndexIs(Live(), name, i);
    }

    /** The creating branch of the lookup: the next slot, recycled or new. */
    method Create(name: string) returns (r: HttpHeader)
      requires Valid()
      modifies this, slots
      ensures Valid() && forall k :: 0 <= k < |slots| ==> slots[k] in old(slots) || fresh(slots[k])
      ensures Live() == old(Live()) + [Header(name, [])]
      ensures slots[old(length)] == r
    {
      if length == |slots| {
        var slot := new HttpHeader();
        slots := slots + [slot];
      }
      r := slots[length];
      r.Clear();
      r.SetName(name);
      length := length + 1;
    }

    /** The header with the given name up to case; a missing one is created on request. */
    method GetByName(name: string, create: bool) returns (r: HttpHeader?)
      requires Valid()
      modifies this, slots
      ensures Valid() && forall k :: 0 <= k < |slots| ==> slots[k] in old(slots) || fresh(slots[k])
      ensures Live() == if create then WithName(old(Live()), name) else old(Live())
      ensures !create ==> slots == old(slots)
      ensures r == null <==> !create && IndexOf(old(Live()), name) == |old(Live())|
      ensures r != null ==> IndexOf(old(Live()), name) < length && slots[IndexOf(old(Live()), name)] == r
    {
      hide IndexOf, ToLower;
      var i := Search(name);
      if i < length {
        return slots[i];
      }
      if !create {
        return null;
      }
      r := Create(name);
    }

    /** Appends one value as the callers do: take a slot, then set it. */
    method Append(header: HttpHeader, ghost i: nat, text: string)
      requires Valid() && i < length && slots[i] == header
      modifies slots
      ensures Valid() && length == old(length) && slots == old(slots)
      ensures Live() == Extended(old(Live()), i, [text])
    {
      var at := header.AppendValue();
      header.SetValue(at, text);
      assert header.Live().values == old(header.Live()).values + [text];
    }
  }
}
