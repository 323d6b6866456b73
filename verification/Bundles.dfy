/** OSC bundles, WOscBundle.cpp, and the parser of WOscBundle.h that steps through them. */
module Bundles {
  import opened Sequences
  import opened OscBytes
  import opened Framing
  import opened Messages

  const SIZE_SIZE: nat := 4
  const HEADER_SIZE: nat := 16

  /** "#bundle" with its zero. */
  const BUNDLE_TAG: seq<byte> := [35, 98, 117, 110, 100, 108, 101, 0]

  /** A 64-bit time tag, most significant byte first. */
  function TimeTagBytes(t: int): (b: seq<byte>)
    ensures |b| == 8
  {
    IntBytes(t / 0x1_0000_0000) + IntBytes(t)
  }

  lemma TimeTagRead(t: int)
    requires 0 <= t < 0x1_0000_0000_0000_0000
    ensures var b := TimeTagBytes(t); WordOf(b[0..4]) * 0x1_0000_0000 + WordOf(b[4..8]) == t
  {
    hide IntBytes, WordOf;
    var hi, lo := t / 0x1_0000_0000, t % 0x1_0000_0000;
    WordRoundTrip(hi);
    WordRoundTrip(lo);
    LowWord(t);
    assert TimeTagBytes(t)[0..4] == IntBytes(hi) && TimeTagBytes(t)[4..8] == IntBytes(lo);
  }

  lemma LowWord(t: int)
    ensures IntBytes(t) == IntBytes(t % 0x1_0000_0000)
  {
  }

  /** The binary form of a bundle with the given items. */
  ghost function BundleBytes(timeTag: int, items: seq<seq<byte>>): seq<byte> {
    BUNDLE_TAG + TimeTagBytes(timeTag) + Framed(items)
  }

  // ----- bundles

  class Bundle {
    var timeTag: int
    var messages: seq<Message>
    var bundles: seq<Bundle>
    /** Everything the binary form depends on, and the nesting depth. */
    ghost var repr: set<object>
    ghost var height: nat

    ghost predicate Valid()
      reads this, repr
      decreases repr
    {
      && this in repr
      && (forall m | m in messages :: m in repr && m.buffer in repr && m.Valid())
      && (forall b | b in bundles :: b in repr && b.repr <= repr && this !in b.repr && b.height < height && b.Valid())
    }

    /** The binary forms of the messages, then of the bundles, in the order of adding. */
    ghost function Items(): (items: seq<seq<byte>>)
      reads this, repr
      requires Valid()
      ensures |items| == |messages| + |bundles|
      decreases repr, 0
    {
      seq(|messages|, i requires 0 <= i < |messages| && Valid() reads this, repr => MessageItem(messages, i))
      + seq(|bundles|, i requires 0 <= i < |bundles| && Valid() reads this, repr => bundles[i].Encoding())
    }

    ghost function MessageItem(ms: seq<Message>, i: nat): seq<byte>
      requires i < |ms| && ms[i].Valid()
      reads ms[i], ms[i].buffer
    {
      ms[i].buffer[..]
    }

    ghost function Encoding(): seq<byte>
      reads this, repr
      requires Valid()
      decreases repr, 1
    {
      BundleBytes(timeTag, Items())
    }

    constructor (timeTag: int)
      ensures Valid() && fresh(repr) && messages == [] && bundles == [] && this.timeTag == timeTag
    {
      this.timeTag := timeTag;
      messages, bundles := [], [];
      repr, height := {this}, 0;
    }

    /** The header in numbers: "#bundle" with its zero, and the time tag as two words. */
    lemma HeaderInNumbers(d: seq<byte>)
      requires Valid() && d == Encoding() && 0 <= timeTag < 0x1_0000_0000_0000_0000
      ensures |d| >= 16 && d[..8] == [35, 98, 117, 110, 100, 108, 101, 0]
      ensures WordOf(d[8..12]) * 0x1_0000_0000 + WordOf(d[12..16]) == timeTag
      ensures d[16..] == Framed(Items())
    {
      hide Items, Framed, IntBytes, WordOf;
      TimeTagRead(timeTag);
      assert d[8..16] == TimeTagBytes(timeTag);
      SubSlice(d, 8, 16, 0, 4);
      SubSlice(d, 8, 16, 4, 8);
    }

    lemma ItemAt(i: nat)
      requires Valid() && i < |messages| + |bundles|
      ensures i < |messages| ==> messages[i].Valid() && Items()[i] == messages[i].buffer[..]
      ensures i >= |messages| ==> bundles[i - |messages|].Valid() && Items()[i] == bundles[i - |messages|].Encoding()
    {
      if i < |messages| {
        assert messages[i] in messages;
      } else {
        assert bundles[i - |messages|] in bundles;
      }
    }

    lemma ItemsAre(items: seq<seq<byte>>)
      requires Valid() && |items| == |messages| + |bundles|
      requires forall i: nat | i < |messages| :: items[i] == messages[i].buffer[..]
      requires forall i: nat | i < |bundles| :: bundles[i] in bundles && items[|messages| + i] == bundles[i].Encoding()
      ensures Items() == items
    {
      hide Message.Valid, Encoding, Items;
      forall i: nat | i < |items| ensures Items()[i] == items[i] {
        ItemAt(i);
        if i >= |messages| { assert items[|messages| + (i - |messages|)] == items[i]; }
      }
    }

    lemma BundleBelow(i: nat)
      requires Valid() && i < |bundles|
      ensures bundles[i].Valid() && bundles[i].height < height
      ensures Items()[|messages| + i] == bundles[i].Encoding()
    {
      assert bundles[i] in bundles;
    }

    lemma MessageValid(i: nat)
      requires Valid() && i < |messages|
      ensures messages[i].Valid()
    {
      assert messages[i] in messages;
    }

    // ----- adding

    method AddMessage(m: Message)
      requires Valid() && m.Valid()
      modifies this
      ensures Valid() && timeTag == old(timeTag) && messages == old(messages) + [m] && bundles == old(bundles)
      ensures Items() == old(Items()[..|messages|] + [m.buffer[..]] + Items()[|messages|..])
    {
      hide Message.Valid, Encoding, Items, MessageItem;
      ghost var items, n := Items(), |messages|;
      forall i: nat | i < |items|
        ensures i < n ==> items[i] == messages[i].buffer[..]
        ensures i >= n ==> bundles[i - n] in bundles && items[i] == bundles[i - n].Encoding()
      {
        ItemAt(i);
      }
      messages := messages + [m];
      repr := repr + {m, m.buffer};
      assert forall b | b in bundles :: b.Valid();
      ItemsAre(items[..n] + [m.buffer[..]] + items[n..]);
    }

    method AddBundle(b: Bundle)
      requires Valid() && b.Valid() && this !in b.repr
      modifies this
      ensures Valid() && timeTag == old(timeTag) && messages == old(messages) && bundles == old(bundles) + [b]
      ensures Items() == old(Items() + [b.Encoding()])
    {
      hide Message.Valid, Encoding, Items, MessageItem;
      ghost var items, n, last := Items(), |messages|, b.Encoding();
      forall i: nat | i < |items|
        ensures i < n ==> items[i] == messages[i].buffer[..]
        ensures i >= n ==> bundles[i - n] in bundles && items[i] == bundles[i - n].Encoding()
      {
        ItemAt(i);
      }
      Attach(b);
      assert b.Encoding() == last;
      assert bundles == bundles[..|bundles| - 1] + [b];
      ItemsAre(items + [last]);
    }

    /** The new array of bundles. */
    method Attach(b: Bundle)
      requires Valid() && b.Valid() && this !in b.repr
      modifies this
      ensures Valid() && timeTag == old(timeTag) && messages == old(messages) && bundles == old(bundles) + [b]
    {
      hide Message.Valid;
      bundles := bundles + [b];
      repr := repr + b.repr;
      height := if height > b.height then height else b.height + 1;
      assert b.Valid();
      assert forall c | c in bundles[..|bundles| - 1] :: c.Valid();
      assert bundles == bundles[..|bundles| - 1] + [b];
    }

    // ----- the binary form

    /** The size, counted without writing. */
    method GetBufferLen() returns (n: nat)
      requires Valid()
      ensures n == |Encoding()|
      decreases height
    {
      hide Message.Valid, Items, Framed;
      ghost var items := Items();
      NothingFramed();
      var bufSize: nat := HEADER_SIZE;
      var i := 0;
      assert items[..0] == [];
      while i < |messages|
        invariant 0 <= i <= |messages| && bufSize == HEADER_SIZE + |Framed(items[..i])|
      {
        MessageValid(i);
        ItemAt(i);
        FramedNext(items, i);
        bufSize := bufSize + SIZE_SIZE + messages[i].buffer.Length;
        i := i + 1;
      }
      ghost var k := i;
      i := 0;
      while i < |bundles|
        invariant 0 <= i <= |bundles| && k == |messages| + i && bufSize == HEADER_SIZE + |Framed(items[..k])|
      {
        BundleBelow(i);
        FramedNext(items, k);
        var size := bundles[i].GetBufferLen();
        assert |items[k]| == size;
        bufSize := bufSize + SIZE_SIZE + size;
        i, k := i + 1, k + 1;
      }
      assert items[..k] == items;
      n := bufSize;
    }

    lemma NothingFramed()
      ensures Framed([]) == []
    {
    }

    lemma FramedNext(items: seq<seq<byte>>, i: nat)
      requires i < |items|
      ensures Framed(items[..i + 1]) == Framed(items[..i]) + (IntBytes(|items[i]|) + items[i])
      ensures |Framed(items[..i + 1])| == |Framed(items[..i])| + SIZE_SIZE + |items[i]|
      ensures |Framed(items[..i + 1])| <= |Framed(items)|
    {
      assert items[..i + 1] == items[..i] + [items[i]];
      FramedSnoc(items[..i], items[i]);
      FramedPrefix(items, i + 1);
    }

    /** Header, time tag, then every element behind its size. */
    method GetBuffer() returns (out: array<byte>)
      requires Valid()
      ensures fresh(out) && out[..] == Encoding()
      decreases height, 1
    {
      hide Message.Valid, Items, Framed;
      ghost var items := Items();
      var size := GetBufferLen();
      out := new byte[size];
      PutBytes(out, 0, BUNDLE_TAG);
      PutBytes(out, 8, TimeTagBytes(timeTag));
      assert out[..0] == [] && out[..HEADER_SIZE] == BUNDLE_TAG + TimeTagBytes(timeTag);
      var pos := WriteMessages(out);
      WriteBundles(out, pos);
    }

    /** All messages, behind the header. */
    method WriteMessages(out: array<byte>) returns (pos: nat)
      requires Valid() && out !in repr && out.Length == HEADER_SIZE + |Framed(Items())|
      modifies out
      ensures pos == HEADER_SIZE + |Framed(Items()[..|messages|])| <= out.Length
      ensures out[..pos] == old(out[..HEADER_SIZE]) + Framed(Items()[..|messages|])
    {
      hide Message.Valid, Items, Framed;
      ghost var items, header := Items(), out[..HEADER_SIZE];
      NothingFramed();
      pos := HEADER_SIZE;
      var i := 0;
      assert items[..0] == [];
      while i < |messages|
        invariant 0 <= i <= |messages| && Valid() && Items() == items
        invariant pos == HEADER_SIZE + |Framed(items[..i])| <= out.Length
        invariant out[..pos] == header + Framed(items[..i])
      {
        MessageValid(i);
        ItemAt(i);
        FramedNext(items, i);
        WriteItem(out, pos, messages[i].buffer[..]);
        Associates(header, Framed(items[..i]), IntBytes(|items[i]|) + items[i]);
        pos := pos + SIZE_SIZE + messages[i].buffer.Length;
        i := i + 1;
      }
    }

    /** All bundles, behind the messages. */
    method WriteBundles(out: array<byte>, start: nat)
      requires Valid() && out !in repr && out.Length == HEADER_SIZE + |Framed(Items())|
      requires start == HEADER_SIZE + |Framed(Items()[..|messages|])| <= out.Length
      requires out[HEADER_SIZE..start] == Framed(Items()[..|messages|])
      modifies out
      ensures out[..] == old(out[..HEADER_SIZE]) + Framed(Items())
      decreases height, 0
    {
      hide Message.Valid, Items, Framed, Encoding;
      ghost var items, header := Items(), out[..HEADER_SIZE];
      assert out[..start] == header + out[HEADER_SIZE..start];
      var pos := start;
      var i := 0;
      while i < |bundles|
        invariant 0 <= i <= |bundles| && Valid() && Items() == items
        invariant pos == HEADER_SIZE + |Framed(items[..|messages| + i])| <= out.Length
        invariant out[..pos] == header + Framed(items[..|messages| + i])
      {
        BundleBelow(i);
        ItemAt(|messages| + i);
        FramedNext(items, |messages| + i);
        var temp := bundles[i].GetBuffer();
        WriteItem(out, pos, temp[..]);
        Associates(header, Framed(items[..|messages| + i]), IntBytes(|temp[..]|) + temp[..]);
        pos := pos + SIZE_SIZE + temp.Length;
        i := i + 1;
      }
      assert items[..|messages| + i] == items;
      assert out[..pos] == out[..];
    }

    static method WriteItem(out: array<byte>, pos: nat, item: seq<byte>)
      requires pos + SIZE_SIZE + |item| <= out.Length
      modifies out
      ensures out[..pos + SIZE_SIZE + |item|] == old(out[..pos]) + (IntBytes(|item|) + item)
    {
      FillBufferWith(out, pos, |item|);
      PutBytes(out, pos + SIZE_SIZE, item);
    }
  }

  // ----- layouts

  /** The body of a bundle that the parser accepts. */
  ghost predicate IsLayout(items: seq<seq<byte>>, body: seq<byte>) {
    && items != [] && body == Framed(items) && items[|items| - 1] != []
    && forall i | 0 <= i < |items| :: |items[i]| <= MAX_INT
  }

  /** No negative size is met on the way. */
  ghost predicate SizesOk(body: seq<byte>, offset: nat)
    decreases |body| - offset
  {
    offset + 4 < |body| ==>
      var size := IntOf(body[offset..offset + 4]);
      size >= 0 && SizesOk(body, offset + size + SIZE_SIZE)
  }

  datatype ParseOutcome = Parsed | TooShort | EmptyBundle | InvalidTag | CorruptLayout | NoItems

  /** The items found so far, and what they say about all layouts of the body. */
  ghost predicate Stepping(items: seq<seq<byte>>, body: seq<byte>, offset: nat, count: nat) {
    && SizesOk(body, offset) && body != []
    && (offset <= |body| ==>
          && body[..offset] == Framed(items) && count == |items|
          && (items == [] ==> offset == 0)
          && (forall i | 0 <= i < |items| :: |items[i]| <= MAX_INT)
          && (offset == |body| ==> IsLayout(items, body))
          && (forall l | IsLayout(l, body) :: items <= l))
    && (offset > |body| ==> forall l :: !IsLayout(l, body))
  }

  lemma SteppingBegins(body: seq<byte>)
    requires SizesOk(body, 0) && body != []
    ensures Stepping([], body, 0, 0)
  {
    assert body[..0] == [];
  }

  /** The item at offset, if it lies inside the body, extends every layout's beginning. */
  lemma SteppingOn(items: seq<seq<byte>>, body: seq<byte>, offset: nat, count: nat)
    requires offset + 4 < |body| && Stepping(items, body, offset, count)
    ensures var n := IntOf(body[offset..offset + 4]);
            && n >= 0 && SizesOk(body, offset + n + SIZE_SIZE)
            && if offset + n + SIZE_SIZE <= |body|
               then Stepping(items + [body[offset + 4..offset + 4 + n]], body, offset + n + SIZE_SIZE, count + 1)
               else Stepping(items, body, offset + n + SIZE_SIZE, count + 1)
  {
    hide IntOf, Framed;
    var n := IntOf(body[offset..offset + 4]);
    var next := offset + n + SIZE_SIZE;
    forall l | IsLayout(l, body)
      ensures next <= |body| && items + [body[offset + 4..offset + 4 + n]] <= l
    {
      LayoutGoesOn(items, body, offset, l);
    }
    if next <= |body| {
      var item := body[offset + 4..offset + 4 + n];
      FramedSnoc(items, item);
      BytesRoundTrip(body[offset..offset + 4]);
      assert body[..next] == body[..offset] + body[offset..offset + 4] + item;
      assert next == |body| ==> body == body[..next] && item != [];
    }
  }

  lemma LayoutGoesOn(items: seq<seq<byte>>, body: seq<byte>, offset: nat, l: seq<seq<byte>>)
    requires offset + 4 < |body| && body[..offset] == Framed(items) && IsLayout(l, body) && items <= l
    ensures var n := IntOf(body[offset..offset + 4]);
            n >= 0 && offset + 4 + n <= |body| && items + [body[offset + 4..offset + 4 + n]] <= l
  {
    hide IntOf, Framed;
    var k := |items|;
    assert l[..k] == items && l[..|l|] == l && |Framed(items)| < |Framed(l)|;
    assert k < |l|;
    ItemFound(l, body, k);
    assert items + [l[k]] == l[..k + 1];
  }

  /** At the end of the loop an offset other than the length excludes every layout. */
  lemma SteppingEnds(items: seq<seq<byte>>, body: seq<byte>, offset: nat, count: nat)
    requires Stepping(items, body, offset, count) && offset + 4 >= |body| && offset != |body|
    ensures forall l :: !IsLayout(l, body)
  {
    if offset < |body| {
      forall l ensures !IsLayout(l, body) {
        if IsLayout(l, body) {
          LastTooShort(items, body, offset, l);
        }
      }
    }
  }

  lemma LastTooShort(items: seq<seq<byte>>, body: seq<byte>, offset: nat, l: seq<seq<byte>>)
    requires offset < |body| <= offset + 4 && body[..offset] == Framed(items) && items <= l
    ensures !IsLayout(l, body)
  {
    hide IntOf, Framed, IntBytes;
    if IsLayout(l, body) {
      var k := |items|;
      assert l[..k] == items && l[..|l|] == l && |Framed(items)| < |Framed(l)|;
      assert k < |l|;
      ItemFound(l, body, k);
      assert l[k] == [];
      BodyAt(l, body, k + 1);
      AllFramed(l, k + 1);
      assert false;
    }
  }

  lemma AllFramed(l: seq<seq<byte>>, k: nat)
    requires k <= |l| && Framed(l[k..]) == []
    ensures k == |l|
  {
  }

  class BundleParser {
    /** The bundle; unparsed unless it was accepted. */
    var data: seq<byte>
    var isParsed: bool
    var bundleLen: nat
    var nItems: nat
    var nextItem: nat
    var offset: nat

    constructor ()
      ensures !isParsed && nItems == 0
    {
      data, isParsed := [], false;
      bundleLen, nItems, nextItem, offset := 0, 0, 0, 0;
    }

    /** The parser stands before item nextItem. */
    ghost predicate Holds(items: seq<seq<byte>>)
      reads this
    {
      && isParsed && |data| == bundleLen > HEADER_SIZE
      && IsLayout(items, data[HEADER_SIZE..])
      && nItems == |items| && nextItem <= nItems && offset == |Framed(items[..nextItem])|
    }

    /** Accepts exactly the bundles with a layout. */
    method Parse(d: seq<byte>) returns (outcome: ParseOutcome, ghost items: seq<seq<byte>>)
      requires |d| <= MAX_INT && (|d| > HEADER_SIZE ==> SizesOk(d[HEADER_SIZE..], 0))
      modifies this
      ensures |d| < HEADER_SIZE <==> outcome == TooShort
      ensures |d| == HEADER_SIZE <==> outcome == EmptyBundle
      ensures |d| > HEADER_SIZE && d[..8] != BUNDLE_TAG <==> outcome == InvalidTag
      ensures |d| > HEADER_SIZE && d[..8] == BUNDLE_TAG && (exists l :: IsLayout(l, d[HEADER_SIZE..]))
              <==> outcome == Parsed
      ensures outcome != NoItems
      ensures outcome == Parsed ==> data == d && Holds(items) && nextItem == 0
      ensures outcome != Parsed ==> !isParsed
    {
      hide IntOf, Framed, IsLayout, Stepping, SizesOk;
      isParsed, bundleLen, nItems, nextItem, offset := false, 0, 0, 0, 0;
      items := [];
      var dataLen := (|d| - HEADER_SIZE) % 0x1_0000_0000;
      assert |d| < HEADER_SIZE ==> dataLen == |d| - HEADER_SIZE + 0x1_0000_0000;
      if dataLen > |d| { return TooShort, items; }
      if dataLen == 0 { return EmptyBundle, items; }
      if d[..8] != BUNDLE_TAG { return InvalidTag, items; }
      ghost var body := d[HEADER_SIZE..];
      items := Walk(d, dataLen);
      if offset != dataLen {
        SteppingEnds(items, body, offset, nItems);
        outcome := CorruptLayout;
        return;
      }
      SteppingDone(items, body, offset, nItems);
      if nItems == 0 { return NoItems, items; }
      data, isParsed, bundleLen := d, true, |d|;
      offset := 0;
      FramedNothing();
      assert items[..0] == [];
      outcome := Parsed;
    }

    lemma FramedNothing()
      ensures Framed([]) == []
    {
    }

    lemma SteppingDone(items: seq<seq<byte>>, body: seq<byte>, offset: nat, count: nat)
      requires Stepping(items, body, offset, count) && offset == |body|
      ensures IsLayout(items, body) && count == |items| > 0
    {
    }

    /** Steps over the items, counting them. */
    method Walk(d: seq<byte>, dataLen: nat) returns (ghost items: seq<seq<byte>>)
      requires HEADER_SIZE < |d| <= MAX_INT && dataLen == |d| - HEADER_SIZE && SizesOk(d[HEADER_SIZE..], 0)
      requires nItems == 0 && offset == 0
      modifies this`nItems, this`offset
      ensures Stepping(items, d[HEADER_SIZE..], offset, nItems) && offset + 4 >= dataLen
    {
      hide IntOf, Framed, IsLayout, Stepping, SizesOk;
      ghost var body := d[HEADER_SIZE..];
      items := [];
      SteppingBegins(body);
      while offset + 4 < dataLen
        invariant Stepping(items, body, offset, nItems)
        decreases dataLen - offset
      {
        var itemLen := BufferToInt(d, HEADER_SIZE + offset);
        SubRest(d, HEADER_SIZE, offset, offset + 4);
        SteppingOn(items, body, offset, nItems);
        if offset + itemLen + SIZE_SIZE <= |body| {
          items := items + [body[offset + 4..offset + 4 + itemLen]];
        }
        offset := offset + itemLen + SIZE_SIZE;
        nItems := nItems + 1;
      }
    }

    /** Yields the next item, or nothing when all have been fetched. */
    method GetNextItem(ghost items: seq<seq<byte>>) returns (more: bool, start: nat, length: nat)
      requires Holds(items)
      modifies this`nextItem, this`offset
      ensures Holds(items) && (more <==> old(nextItem) < |items|)
      ensures more ==> nextItem == old(nextItem) + 1 && start + length <= |data|
                       && data[start..start + length] == items[old(nextItem)]
      ensures !more ==> nextItem == old(nextItem) && offset == old(offset)
    {
      hide IntOf, Framed;
      ghost var body := data[HEADER_SIZE..];
      start, length := 0, 0;
      var dataLen := bundleLen - HEADER_SIZE;
      if nextItem < nItems { ItemFound(items, body, nextItem); }
      if nextItem >= nItems || offset >= dataLen { return false, start, length; }
      var size := BufferToInt(data, HEADER_SIZE + offset);
      SubRest(data, HEADER_SIZE, offset, offset + 4);
      length := size;
      start := HEADER_SIZE + offset + SIZE_SIZE;
      SubRest(data, HEADER_SIZE, offset + 4, offset + 4 + length);
      offset := offset + length + SIZE_SIZE;
      nextItem := nextItem + 1;
      more := true;
    }

    /** The loop of a receiver. */
    method FetchAll(ghost items: seq<seq<byte>>) returns (fetched: seq<seq<byte>>)
      requires Holds(items) && nextItem == 0
      modifies this`nextItem, this`offset
      ensures Holds(items) && fetched == items
    {
      hide Holds;
      fetched := [];
      HoldsCount(items);
      while true
        invariant Holds(items) && nextItem == |fetched| <= |items| && fetched == items[..nextItem]
        decreases |items| - nextItem
      {
        var more, start, length := GetNextItem(items);
        if !more {
          assert items[..nextItem] == items;
          return;
        }
        assert items[..nextItem] == items[..nextItem - 1] + [items[nextItem - 1]];
        fetched := fetched + [data[start..start + length]];
      }
    }

    lemma HoldsCount(items: seq<seq<byte>>)
      requires Holds(items)
      ensures nextItem <= |items|
    {
    }
  }

  // ----- round trip

  /** A framed body meets no negative sizes. */
  lemma {:induction false} FramedSizesOk(items: seq<seq<byte>>, body: seq<byte>, k: nat)
    requires body == Framed(items) && k <= |items| && forall i | 0 <= i < |items| :: |items[i]| <= MAX_INT
    ensures SizesOk(body, |Framed(items[..k])|)
    decreases |items| - k
  {
    hide Framed, IntOf;
    BodyAt(items, body, k);
    if k < |items| {
      ItemFound(items, body, k);
      FramedSizesOk(items, body, k + 1);
    } else {
      assert items[..k] == items;
    }
  }

  lemma BundleSplits(timeTag: int, items: seq<seq<byte>>)
    ensures var d := BundleBytes(timeTag, items);
            |d| >= HEADER_SIZE && d[..8] == BUNDLE_TAG && d[HEADER_SIZE..] == Framed(items)
  {
  }

  lemma EncodingSize(b: Bundle)
    requires b.Valid()
    ensures |b.Encoding()| >= HEADER_SIZE && b.Encoding()[..8] == BUNDLE_TAG
  {
    BundleSplits(b.timeTag, b.Items());
  }

  /** The binary form of a bundle that is not empty has its items as its layout, so that the
      parser accepts it and yields the messages, then the bundles, in the order of adding. */
  lemma BundleRoundTrip(b: Bundle)
    requires b.Valid() && |b.Encoding()| <= MAX_INT && (b.messages != [] || b.bundles != [])
    ensures var d := b.Encoding();
            && |d| > HEADER_SIZE && d[..8] == BUNDLE_TAG
            && IsLayout(b.Items(), d[HEADER_SIZE..]) && SizesOk(d[HEADER_SIZE..], 0)
            && forall l | IsLayout(l, d[HEADER_SIZE..]) :: l == b.Items()
  {
    hide Message.Valid;
    var items, d := b.Items(), b.Encoding();
    BundleSplits(b.timeTag, items);
    var body := d[HEADER_SIZE..];
    hide Framed, Bundle.Encoding, Bundle.Items, BundleBytes;
    forall i: nat | i < |items| ensures items[i] != [] && |items[i]| <= MAX_INT {
      ItemNonempty(b, i);
      ItemBound(items, i);
    }
    ItemBound(items, 0);
    FramedSizesOk(items, body, 0);
    assert items[..0] == [];
    assert IsLayout(items, body);
    forall l | IsLayout(l, body) ensures l == items {
      LayoutUnique(l, items, body);
    }
  }

  lemma ItemNonempty(b: Bundle, i: nat)
    requires b.Valid() && i < |b.messages| + |b.bundles|
    ensures b.Items()[i] != []
  {
    b.ItemAt(i);
    if i < |b.messages| {
      MessageLong(b.messages[i]);
    } else {
      EncodingSize(b.bundles[i - |b.messages|]);
    }
  }

  lemma MessageLong(m: Message)
    requires m.Valid()
    ensures |m.buffer[..]| >= 8
  {
    MessageAligned(m.address, m.args);
  }

  /** Every nested bundle is itself an item, small enough to be parsed in turn. */
  lemma NestedItem(b: Bundle, i: nat)
    requires b.Valid() && i < |b.bundles| && |b.Encoding()| <= MAX_INT
    ensures b.bundles[i].Valid() && b.Items()[|b.messages| + i] == b.bundles[i].Encoding()
    ensures |b.bundles[i].Encoding()| <= MAX_INT
  {
    hide Message.Valid, Framed, Bundle.Items;
    b.ItemAt(|b.messages| + i);
    ItemBound(b.Items(), |b.messages| + i);
    BundleSplits(b.timeTag, b.Items());
  }

  /** What process_bundle takes for a nested bundle: it looks at the second byte. */
  predicate TakenForBundle(item: seq<byte>) {
    |item| > 1 && item[1] == 35
  }

  /** No nested bundle is taken for one; it is handed to the message parser, which refuses it. */
  lemma NestedBundleIsRefused(b: Bundle)
    requires b.Valid()
    ensures !TakenForBundle(b.Encoding()) && b.Encoding() != [] && b.Encoding()[0] != SLASH
  {
    EncodingSize(b);
    assert b.Encoding()[0] == b.Encoding()[..8][0] && b.Encoding()[1] == b.Encoding()[..8][1];
  }
}
