/** Byte strings one behind the other, each behind its size: the layout of a bundle, and of
    the stream between two TCP handlers. */
module Framing {
  import opened OscBytes

  /** Items, each behind its size. */
  ghost function Framed(items: seq<seq<byte>>): seq<byte> {
    if items == [] then [] else IntBytes(|items[0]|) + items[0] + Framed(items[1..])
  }

  lemma {:induction false} FramedSnoc(items: seq<seq<byte>>, x: seq<byte>)
    ensures Framed(items + [x]) == Framed(items) + (IntBytes(|x|) + x)
  {
    if items == [] {
      assert [x][1..] == [];
    } else {
      FramedSnoc(items[1..], x);
      assert (items + [x])[1..] == items[1..] + [x];
    }
  }

  lemma FramedCons(items: seq<seq<byte>>)
    requires items != []
    ensures Framed(items) == IntBytes(|items[0]|) + items[0] + Framed(items[1..])
  {
  }

  lemma {:induction false} FramedAppend(a: seq<seq<byte>>, b: seq<seq<byte>>)
    ensures Framed(a + b) == Framed(a) + Framed(b)
  {
    if a == [] {
      assert a + b == b;
    } else {
      assert (a + b)[1..] == a[1..] + b;
      FramedAppend(a[1..], b);
      FramedCons(a + b);
      FramedCons(a);
    }
  }

  lemma {:induction false} FramedPrefix(items: seq<seq<byte>>, n: nat)
    requires n <= |items|
    ensures |Framed(items[..n])| <= |Framed(items)|
  {
    if n == 0 {
    } else {
      assert items[..n][1..] == items[1..][..n - 1];
      FramedPrefix(items[1..], n - 1);
    }
  }

  lemma FramedHead(items: seq<seq<byte>>, rest: seq<byte>)
    requires items != [] && rest == Framed(items) && |items[0]| <= MAX_INT
    ensures var n := |items[0]|;
            && 4 + n <= |rest| && rest[0..4] == IntBytes(n) && IntOf(rest[0..4]) == n
            && rest[4..4 + n] == items[0] && rest[4 + n..] == Framed(items[1..])
  {
    var n := |items[0]|;
    IntRoundTrip(n);
    hide IntBytes, IntOf, Framed;
    assert Framed(items) == IntBytes(n) + items[0] + Framed(items[1..]) by { FramedCons(items); }
  }

  /** What is left of a body behind the first k items. */
  lemma BodyAt(items: seq<seq<byte>>, body: seq<byte>, k: nat)
    requires body == Framed(items) && k <= |items|
    ensures |Framed(items[..k])| <= |body| && body[..|Framed(items[..k])|] == Framed(items[..k])
    ensures body[|Framed(items[..k])|..] == Framed(items[k..])
  {
    assert items == items[..k] + items[k..];
    FramedAppend(items[..k], items[k..]);
  }

  /** The item behind the first k ones, as the parser finds it. */
  lemma ItemFound(items: seq<seq<byte>>, body: seq<byte>, k: nat)
    requires body == Framed(items) && k < |items| && forall i | 0 <= i < |items| :: |items[i]| <= MAX_INT
    ensures var offset, n := |Framed(items[..k])|, |items[k]|;
            && offset + 4 + n <= |body| && IntOf(body[offset..offset + 4]) == n
            && body[offset + 4..offset + 4 + n] == items[k]
            && |Framed(items[..k + 1])| == offset + 4 + n
  {
    hide Framed, IntOf, IntBytes;
    BodyAt(items, body, k);
    var offset, n := |Framed(items[..k])|, |items[k]|;
    var rest := body[offset..];
    assert items[k..][0] == items[k];
    FramedHead(items[k..], rest);
    assert body[offset..offset + 4] == rest[0..4] && body[offset + 4..offset + 4 + n] == rest[4..4 + n];
    assert items[..k + 1] == items[..k] + [items[k]];
    FramedSnoc(items[..k], items[k]);
  }

  lemma {:induction false} ItemBound(items: seq<seq<byte>>, i: nat)
    requires i < |items|
    ensures |items[i]| + 4 <= |Framed(items)|
  {
    if i == 0 {
    } else {
      ItemBound(items[1..], i - 1);
    }
  }

  /** A body has at most one layout. */
  lemma {:induction false} LayoutUnique(a: seq<seq<byte>>, b: seq<seq<byte>>, body: seq<byte>)
    requires Framed(a) == body == Framed(b)
    requires forall i | 0 <= i < |a| :: |a[i]| <= MAX_INT
    requires forall i | 0 <= i < |b| :: |b[i]| <= MAX_INT
    ensures a == b
  {
    if a == [] || b == [] {
    } else {
      FramedHead(a, body);
      FramedHead(b, body);
      assert forall i | 0 <= i < |a[1..]| :: a[1..][i] == a[i + 1];
      assert forall i | 0 <= i < |b[1..]| :: b[1..][i] == b[i + 1];
      LayoutUnique(a[1..], b[1..], body[4 + |a[0]|..]);
      assert a == [a[0]] + a[1..] && b == [b[0]] + b[1..];
    }
  }
}
