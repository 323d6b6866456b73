/** OSC messages, WOscMessage.cpp: an address, a type tag and the arguments, kept by type. */
module Messages {
  import opened Options
  import opened Sequences
  import opened OscBytes

  const SLASH: byte := 47
  const COMMA: byte := 44
  const TAG_INT: byte := 105
  const TAG_FLOAT: byte := 102
  const TAG_STRING: byte := 115
  const TAG_BLOB: byte := 98

  datatype Arg = IntArg(x: int) | FloatArg(bits: int) | StringArg(s: seq<byte>) | BlobArg(blob: Blob)

  datatype Outcome = Ok | NullBuffer | InvalidAddressNoSlash

  ghost predicate IsArg(a: Arg) {
    match a
    case IntArg(x) => IsInt32(x)
    case FloatArg(bits) => 0 <= bits < 0x1_0000_0000
    case StringArg(s) => IsText(s)
    case BlobArg(b) => IsBlob(b)
  }

  function TagOf(a: Arg): byte {
    match a
    case IntArg(_) => TAG_INT
    case FloatArg(_) => TAG_FLOAT
    case StringArg(_) => TAG_STRING
    case BlobArg(_) => TAG_BLOB
  }

  function ArgBytes(a: Arg): seq<byte> {
    match a
    case IntArg(x) => IntBytes(x)
    case FloatArg(bits) => IntBytes(bits)
    case StringArg(s) => Padded(s)
    case BlobArg(b) => BlobBytes(b)
  }

  ghost function TagsOf(args: seq<Arg>): (tags: seq<byte>)
    ensures |tags| == |args|
  {
    seq(|args|, i requires 0 <= i < |args| => TagOf(args[i]))
  }

  ghost function ArgsBytes(args: seq<Arg>): seq<byte> {
    if args == [] then [] else ArgBytes(args[0]) + ArgsBytes(args[1..])
  }

  ghost function TypeTag(args: seq<Arg>): seq<byte> {
    [COMMA] + TagsOf(args)
  }

  /** The binary form of a message. */
  ghost function MessageBytes(address: seq<byte>, args: seq<Arg>): seq<byte> {
    Padded(address) + Padded(TypeTag(args)) + ArgsBytes(args)
  }

  /** The arguments of one type. */
  ghost function Select(args: seq<Arg>, tag: byte): seq<Arg> {
    if args == [] then []
    else
      var last := args[|args| - 1];
      Select(args[..|args| - 1], tag) + if TagOf(last) == tag then [last] else []
  }

  lemma SelectSnoc(args: seq<Arg>, a: Arg, tag: byte)
    ensures Select(args + [a], tag) == Select(args, tag) + if TagOf(a) == tag then [a] else []
  {
    assert (args + [a])[..|args|] == args;
  }

  lemma {:induction false} SelectPrefix(args: seq<Arg>, n: nat, tag: byte)
    requires n <= |args|
    ensures Select(args[..n], tag) <= Select(args, tag)
  {
    if n < |args| {
      var init := args[..|args| - 1];
      assert init[..n] == args[..n];
      SelectPrefix(init, n, tag);
    } else {
      assert args[..n] == args;
    }
  }

  /** The argument at position n is the next one of its type. */
  lemma SelectAt(args: seq<Arg>, n: nat)
    requires n < |args|
    ensures forall tag ::
              |Select(args[..n + 1], tag)| == |Select(args[..n], tag)| + if tag == TagOf(args[n]) then 1 else 0
    ensures var k := |Select(args[..n], TagOf(args[n]))|;
            k < |Select(args, TagOf(args[n]))| && Select(args, TagOf(args[n]))[k] == args[n]
  {
    assert args[..n + 1] == args[..n] + [args[n]];
    forall tag
      ensures |Select(args[..n + 1], tag)| == |Select(args[..n], tag)| + if tag == TagOf(args[n]) then 1 else 0
    {
      SelectSnoc(args[..n], args[n], tag);
    }
    SelectSnoc(args[..n], args[n], TagOf(args[n]));
    SelectPrefix(args, n + 1, TagOf(args[n]));
  }

  lemma {:induction false} ArgsBytesSnoc(args: seq<Arg>, a: Arg)
    ensures ArgsBytes(args + [a]) == ArgsBytes(args) + ArgBytes(a)
  {
    hide ArgBytes;
    if args == [] {
      assert [a][1..] == [];
    } else {
      ArgsBytesSnoc(args[1..], a);
      assert (args + [a])[1..] == args[1..] + [a];
    }
  }

  lemma {:induction false} ArgsBytesPrefix(args: seq<Arg>, n: nat)
    requires n <= |args|
    ensures |ArgsBytes(args[..n])| <= |ArgsBytes(args)|
  {
    hide ArgBytes;
    if n == 0 {
    } else {
      assert args[..n][1..] == args[1..][..n - 1];
      ArgsBytesPrefix(args[1..], n - 1);
    }
  }

  lemma {:induction false} ArgsBytesAligned(args: seq<Arg>)
    requires forall a | a in args :: IsArg(a)
    ensures |ArgsBytes(args)| % 4 == 0
  {
    hide ArgBytes, IsArg;
    if args == [] {
    } else {
      assert args[0] in args;
      assert forall a | a in args[1..] :: a in args;
      ArgAligned(args[0]);
      ArgsBytesAligned(args[1..]);
      SumAligned(|ArgBytes(args[0])|, |ArgsBytes(args[1..])|);
    }
  }

  lemma ArgAligned(a: Arg)
    requires IsArg(a)
    ensures |ArgBytes(a)| % 4 == 0
  {
    hide IntBytes, Padded;
  }

  lemma SumAligned(m: nat, n: nat)
    requires m % 4 == 0 && n % 4 == 0
    ensures (m + n) % 4 == 0
  {
  }

  /** Messages occupy a multiple of four bytes. */
  lemma MessageAligned(address: seq<byte>, args: seq<Arg>)
    requires forall a | a in args :: IsArg(a)
    ensures |MessageBytes(address, args)| % 4 == 0 && |MessageBytes(address, args)| >= 8
  {
    hide Padded, ArgsBytes, IsArg;
    ArgsBytesAligned(args);
    SumAligned(|Padded(address)|, |Padded(TypeTag(args))|);
    SumAligned(|Padded(address)| + |Padded(TypeTag(args))|, |ArgsBytes(args)|);
  }

  // ----- what a buffer says

  /** The arguments found by scanning the tags over the bytes from pos on; None if the scan
      would leave the buffer or meets a negative blob size. */
  ghost function Decode(tags: seq<byte>, b: seq<byte>, pos: nat): Option<seq<Arg>>
    decreases |tags|
  {
    if tags == [] then Some([])
    else if tags[0] == COMMA then Decode(tags[1..], b, pos)
    else if tags[0] != TAG_INT && tags[0] != TAG_FLOAT && tags[0] != TAG_STRING && tags[0] != TAG_BLOB then Some([])
    else
      match DecodeArg(tags[0], b, pos)
      case None => None
      case Some(a) =>
        match Decode(tags[1..], b, pos + |ArgBytes(a)|)
        case None => None
        case Some(rest) => Some([a] + rest)
  }

  ghost function DecodeArg(tag: byte, b: seq<byte>, pos: nat): (r: Option<Arg>)
    requires tag == TAG_INT || tag == TAG_FLOAT || tag == TAG_STRING || tag == TAG_BLOB
    ensures r.Some? ==> pos <= |b| && IsArg(r.value) && TagOf(r.value) == tag
  {
    if pos > |b| then None
    else if tag == TAG_STRING then
      if EndOf(b, pos) == |b| then None else Some(StringArg(b[pos..EndOf(b, pos)]))
    else if pos + 4 > |b| then None
    else
      var word := b[pos..pos + 4];
      if tag == TAG_INT then Some(IntArg(IntOf(word)))
      else if tag == TAG_FLOAT then Some(FloatArg(WordOf(word)))
      else
        var n := IntOf(word);
        if n < 0 || pos + 4 + GetSizeFourByteAligned(n) > |b| then None
        else Some(BlobArg(Blob(b[pos + 4..pos + 4 + n], b[pos + 4 + n..pos + 4 + GetSizeFourByteAligned(n)])))
  }

  /** No blob of a message is written outside the array allocated for it. */
  ghost predicate BlobsFit(args: seq<Arg>) {
    forall n: nat | n < |args| && args[n].BlobArg? :: BlobFits(args[..n])
  }

  /** The length of the array allocated for one more blob: from the second on it is the number
      of strings. */
  ghost function BlobSlots(before: seq<Arg>): nat {
    if Select(before, TAG_BLOB) == [] then 1 else |Select(before, TAG_STRING)|
  }

  /** The new blob is written behind the earlier ones. */
  ghost predicate BlobFits(before: seq<Arg>) {
    |Select(before, TAG_BLOB)| < BlobSlots(before)
  }

  /** What the parsing constructor makes of a buffer: its address and arguments. */
  ghost predicate Says(b: seq<byte>, address: seq<byte>, args: seq<Arg>) {
    && b != [] && b[0] == SLASH && EndOf(b, 0) < |b| && address == b[..EndOf(b, 0)]
    && var pos := |Padded(address)|;
       if |b| <= pos then args == []
       else EndOf(b, pos) < |b|
            && Decode(b[pos..EndOf(b, pos)], b, pos + |Padded(b[pos..EndOf(b, pos)])|) == Some(args)
  }

  // ----- round trip

  lemma ArgReads(b: seq<byte>, pos: nat, a: Arg)
    requires IsArg(a) && pos + |ArgBytes(a)| <= |b| && b[pos..pos + |ArgBytes(a)|] == ArgBytes(a)
    ensures DecodeArg(TagOf(a), b, pos) == Some(a)
  {
    hide IntBytes, IntOf, WordOf;
    match a
    case IntArg(x) => IntRoundTrip(x);
    case FloatArg(bits) => WordRoundTrip(bits);
    case StringArg(s) => PaddedReads(b, pos, s);
    case BlobArg(blob) => BlobReads(b, pos, blob);
  }

  lemma BlobReads(b: seq<byte>, pos: nat, blob: Blob)
    requires IsBlob(blob) && pos + |BlobBytes(blob)| <= |b| && b[pos..pos + |BlobBytes(blob)|] == BlobBytes(blob)
    ensures DecodeArg(TAG_BLOB, b, pos) == Some(BlobArg(blob))
  {
    hide IntBytes, IntOf, WordOf;
    var n := |blob.data|;
    IntRoundTrip(n);
    SliceParts(b, pos, IntBytes(n), blob.data, blob.padding);
  }

  lemma SliceParts(b: seq<byte>, pos: nat, x: seq<byte>, y: seq<byte>, z: seq<byte>)
    requires pos + |x| + |y| + |z| <= |b| && b[pos..pos + |x| + |y| + |z|] == x + y + z
    ensures b[pos..pos + |x|] == x && b[pos + |x|..pos + |x| + |y|] == y
    ensures b[pos + |x| + |y|..pos + |x| + |y| + |z|] == z
  {
    var part := b[pos..pos + |x| + |y| + |z|];
    Parts(part, x, y, z);
    var end := pos + |part|;
    SubSlice(b, pos, end, 0, |x|);
    SubSlice(b, pos, end, |x|, |x| + |y|);
    SubSlice(b, pos, end, |x| + |y|, |part|);
  }

  lemma DecodeNext(tags: seq<byte>, b: seq<byte>, pos: nat, a: Arg, rest: seq<Arg>)
    requires tags != [] && tags[0] == TagOf(a) && DecodeArg(tags[0], b, pos) == Some(a)
    requires Decode(tags[1..], b, pos + |ArgBytes(a)|) == Some(rest)
    ensures Decode(tags, b, pos) == Some([a] + rest)
  {
    hide DecodeArg, ArgBytes;
  }

  lemma SplitTail(b: seq<byte>, pos: nat, x: seq<byte>, y: seq<byte>)
    requires pos <= |b| && b[pos..] == x + y
    ensures pos + |x| <= |b| && b[pos..pos + |x|] == x && b[pos + |x|..] == y
  {
    assert b[pos..pos + |x|] == b[pos..][..|x|] && b[pos + |x|..] == b[pos..][|x|..];
  }

  lemma {:induction false} ArgsRead(b: seq<byte>, pos: nat, args: seq<Arg>)
    requires (forall a | a in args :: IsArg(a)) && pos <= |b| && b[pos..] == ArgsBytes(args)
    ensures Decode(TagsOf(args), b, pos) == Some(args)
    decreases |args|
  {
    hide IsArg, ArgBytes, DecodeArg;
    if args == [] {
    } else {
      ArgsReadStep(b, pos, args);
      ArgsRead(b, pos + |ArgBytes(args[0])|, args[1..]);
      DecodeNext(TagsOf(args), b, pos, args[0], args[1..]);
      assert [args[0]] + args[1..] == args;
    }
  }

  lemma ArgsReadStep(b: seq<byte>, pos: nat, args: seq<Arg>)
    requires (forall a | a in args :: IsArg(a)) && args != [] && pos <= |b| && b[pos..] == ArgsBytes(args)
    ensures DecodeArg(TagOf(args[0]), b, pos) == Some(args[0])
    ensures TagsOf(args)[0] == TagOf(args[0]) && TagsOf(args)[1..] == TagsOf(args[1..])
    ensures pos + |ArgBytes(args[0])| <= |b| && b[pos + |ArgBytes(args[0])|..] == ArgsBytes(args[1..])
    ensures forall a | a in args[1..] :: IsArg(a)
  {
    hide IsArg, ArgBytes, DecodeArg, Decode;
    assert args[0] in args && forall c | c in args[1..] :: c in args;
    SplitTail(b, pos, ArgBytes(args[0]), ArgsBytes(args[1..]));
    ArgReads(b, pos, args[0]);
  }

  lemma TagsAreText(args: seq<Arg>)
    ensures IsText(TypeTag(args))
  {
  }

  /** Parsing the bytes of a message gives its address and its arguments back, and nothing else. */
  lemma MessageRoundTrip(address: seq<byte>, args: seq<Arg>)
    requires IsText(address) && address != [] && address[0] == SLASH
    requires forall a | a in args :: IsArg(a)
    ensures forall address', args' ::
              Says(MessageBytes(address, args), address', args') <==> address' == address && args' == args
  {
    TagsAreText(args);
    var b := MessageBytes(address, args);
    BytesSay(b, address, TypeTag(args), args);
    hide *;
    forall address', args' | Says(b, address', args') ensures address' == address && args' == args {
      SaysOnce(b, address, args, address', args');
    }
  }

  lemma BytesSay(b: seq<byte>, address: seq<byte>, tag: seq<byte>, args: seq<Arg>)
    requires IsText(address) && address != [] && address[0] == SLASH && IsText(tag) && tag == TypeTag(args)
    requires forall a | a in args :: IsArg(a)
    requires b == Padded(address) + Padded(tag) + ArgsBytes(args)
    ensures Says(b, address, args)
  {
    hide *;
    Parts(b, Padded(address), Padded(tag), ArgsBytes(args));
    StringsRead(b, address, tag);
    ArgsRead(b, |Padded(address)| + |Padded(tag)|, args);
    CommaSkipped(args, b, |Padded(address)| + |Padded(tag)|);
    SaysSo(b, address, tag, args);
  }

  lemma StringsRead(b: seq<byte>, address: seq<byte>, tag: seq<byte>)
    requires IsText(address) && IsText(tag) && |Padded(address)| + |Padded(tag)| <= |b|
    requires b[0..0 + |Padded(address)|] == Padded(address)
    requires b[|Padded(address)|..|Padded(address)| + |Padded(tag)|] == Padded(tag)
    ensures EndOf(b, 0) == |address| < |b| && b[..EndOf(b, 0)] == address
    ensures var pos := |Padded(address)|; pos < EndOf(b, pos) + 1 <= |b| && b[pos..EndOf(b, pos)] == tag
  {
    PaddedReads(b, 0, address);
    PaddedReads(b, |Padded(address)|, tag);
    assert b[0..0 + |address|] == b[..|address|];
  }

  lemma Parts(b: seq<byte>, x: seq<byte>, y: seq<byte>, z: seq<byte>)
    requires b == x + y + z
    ensures |b| == |x| + |y| + |z| && b[0..0 + |x|] == x && b[|x|..|x| + |y|] == y && b[|x| + |y|..] == z
  {
  }

  lemma SaysSo(b: seq<byte>, address: seq<byte>, tag: seq<byte>, args: seq<Arg>)
    requires address != [] && address[0] == SLASH
    requires EndOf(b, 0) < |b| && b[..EndOf(b, 0)] == address
    requires var pos := |Padded(address)|;
             && pos < |b| && EndOf(b, pos) < |b| && b[pos..EndOf(b, pos)] == tag
             && Decode(tag, b, pos + |Padded(tag)|) == Some(args)
    ensures Says(b, address, args)
  {
    hide Decode, Padded, EndOf, Zeros, GetSizeFourByteAligned;
    assert b[0] == b[..EndOf(b, 0)][0];
  }

  lemma CommaSkipped(args: seq<Arg>, b: seq<byte>, pos: nat)
    ensures Decode(TypeTag(args), b, pos) == Decode(TagsOf(args), b, pos)
  {
    assert TypeTag(args)[1..] == TagsOf(args);
  }

  /** A buffer says at most one thing. */
  lemma SaysOnce(b: seq<byte>, address: seq<byte>, args: seq<Arg>, address': seq<byte>, args': seq<Arg>)
    requires Says(b, address, args) && Says(b, address', args')
    ensures address == address' && args == args'
  {
  }

  predicate IsTag(t: byte) {
    t == TAG_INT || t == TAG_FLOAT || t == TAG_STRING || t == TAG_BLOB
  }

  lemma DecodeHead(tags: seq<byte>, b: seq<byte>, pos: nat, args: seq<Arg>)
    requires tags != [] && Decode(tags, b, pos) == Some(args)
    ensures if IsTag(tags[0]) then
              args != [] && DecodeArg(tags[0], b, pos) == Some(args[0])
              && Decode(tags[1..], b, pos + |ArgBytes(args[0])|) == Some(args[1..])
            else if tags[0] == COMMA then Decode(tags[1..], b, pos) == Some(args)
            else args == []
  {
    hide DecodeArg, ArgBytes;
  }

  lemma DecodeEnd(b: seq<byte>, pos: nat, args: seq<Arg>)
    requires Decode([], b, pos) == Some(args)
    ensures args == []
  {
  }

  // ----- the bytes in numbers

  /** The tag that announces an argument of the type of a: i, f, s or b. */
  ghost predicate Announces(tag: byte, a: Arg) {
    && (tag == 105 <==> a.IntArg?)
    && (tag == 102 <==> a.FloatArg?)
    && (tag == 115 <==> a.StringArg?)
    && (tag == 98 <==> a.BlobArg?)
  }

  /** One argument for each tag. */
  ghost predicate AllAnnounced(tags: seq<byte>, args: seq<Arg>) {
    |args| == |tags| && forall k | 0 <= k < |args| :: Announces(tags[k], args[k])
  }

  /** A message begins with a slash; behind the padded address stand a comma, one tag for each
      argument, and a zero. */
  lemma MessageInNumbers(b: seq<byte>, address: seq<byte>, args: seq<Arg>)
    requires address != [] && address[0] == SLASH && b == MessageBytes(address, args)
    ensures var pos := |Padded(address)|;
            && pos + |args| + 1 < |b| && b[0] == 47 && b[pos] == 44 && b[pos + 1 + |args|] == 0
            && AllAnnounced(b[pos + 1..pos + 1 + |args|], args)
  {
    var pos, tag := |Padded(address)|, TypeTag(args);
    hide ArgsBytes;
    assert Padded(address)[..|address|] == address && Padded(tag)[..|tag|] == tag;
    hide Padded;
    assert b[0] == Padded(address)[..|address|][0];
    forall k | 0 <= k < |tag| ensures b[pos + k] == tag[k] {
      assert b[pos + k] == Padded(tag)[k] == Padded(tag)[..|tag|][k];
    }
    assert b[pos + |tag|] == Padded(tag)[|tag|];
    forall k | 0 <= k < |args| ensures Announces(b[pos + 1 + k], args[k]) {
      assert b[pos + (1 + k)] == tag[1 + k] == TagOf(args[k]);
    }
  }

  lemma {:induction false} ArgsBytesAt(args: seq<Arg>, k: nat)
    requires k < |args|
    ensures |ArgsBytes(args[..k])| + |ArgBytes(args[k])| <= |ArgsBytes(args)|
    ensures ArgsBytes(args)[|ArgsBytes(args[..k])|..][..|ArgBytes(args[k])|] == ArgBytes(args[k])
  {
    hide ArgBytes;
    if k == 0 {
      assert args[..0] == [];
    } else {
      ArgsBytesAt(args[1..], k - 1);
      assert args[..k][1..] == args[1..][..k - 1];
      var n := |ArgsBytes(args[1..][..k - 1])|;
      assert ArgsBytes(args)[|ArgBytes(args[0])| + n..] == ArgsBytes(args[1..])[n..];
    }
  }

  /** The bytes of argument k stand behind those of the arguments before it: numbers as big-endian
      words, texts with their zero, blobs behind their size. */
  lemma ArgumentInNumbers(b: seq<byte>, address: seq<byte>, args: seq<Arg>, k: nat)
    requires b == MessageBytes(address, args) && k < |args| && IsArg(args[k])
    ensures var pos := |Padded(address)| + |Padded(TypeTag(args))| + |ArgsBytes(args[..k])|;
            && pos + 4 <= |b|
            && match args[k]
               case IntArg(x) => IntOf(b[pos..pos + 4]) == x
               case FloatArg(bits) => WordOf(b[pos..pos + 4]) == bits
               case StringArg(s) => pos + |s| < |b| && b[pos..pos + |s|] == s && b[pos + |s|] == 0
               case BlobArg(blob) => IntOf(b[pos..pos + 4]) == |blob.data| && pos + 4 + |blob.data| <= |b|
                                     && b[pos + 4..pos + 4 + |blob.data|] == blob.data
  {
    hide Padded, ArgsBytes, ArgBytes, IsArg, TypeTag, IntOf, WordOf;
    var header, n := |Padded(address)| + |Padded(TypeTag(args))|, |ArgBytes(args[k])|;
    var pos := header + |ArgsBytes(args[..k])|;
    ArgsBytesAt(args, k);
    assert b[header..] == ArgsBytes(args);
    assert b[pos..] == ArgsBytes(args)[|ArgsBytes(args[..k])|..];
    assert b[pos..pos + n] == b[pos..][..n];
    ArgumentRead(b, pos, args[k]);
  }

  lemma ArgumentRead(b: seq<byte>, pos: nat, a: Arg)
    requires IsArg(a) && pos + |ArgBytes(a)| <= |b| && b[pos..pos + |ArgBytes(a)|] == ArgBytes(a)
    ensures pos + 4 <= |b|
    ensures match a
            case IntArg(x) => IntOf(b[pos..pos + 4]) == x
            case FloatArg(bits) => WordOf(b[pos..pos + 4]) == bits
            case StringArg(s) => pos + |s| < |b| && b[pos..pos + |s|] == s && b[pos + |s|] == 0
            case BlobArg(blob) => IntOf(b[pos..pos + 4]) == |blob.data| && pos + 4 + |blob.data| <= |b|
                                  && b[pos + 4..pos + 4 + |blob.data|] == blob.data
  {
    hide IntBytes, IntOf, WordOf;
    match a
    case IntArg(x) => IntRoundTrip(x);
    case FloatArg(bits) => WordRoundTrip(bits);
    case StringArg(s) => PaddedReads(b, pos, s);
    case BlobArg(blob) =>
      IntRoundTrip(|blob.data|);
      SliceParts(b, pos, IntBytes(|blob.data|), blob.data, blob.padding);
  }

  /** The tags that count: commas are skipped, and nothing is read behind an unknown tag. */
  ghost function Announced(tags: seq<byte>): seq<byte> {
    if tags == [] then []
    else if tags[0] == 44 then Announced(tags[1..])
    else if tags[0] in {105, 102, 115, 98} then [tags[0]] + Announced(tags[1..])
    else []
  }

  /** What a buffer says begins with a slash and has one argument for each tag that counts. */
  lemma SaidInNumbers(b: seq<byte>, address: seq<byte>, args: seq<Arg>)
    requires Says(b, address, args)
    ensures b[0] == 47
    ensures var pos := |Padded(address)|;
            if |b| <= pos then args == [] else AllAnnounced(Announced(b[pos..EndOf(b, pos)]), args)
  {
    var pos := |Padded(address)|;
    hide Decode, Padded, Announced, AllAnnounced;
    if pos < |b| {
      DecodedTypes(b[pos..EndOf(b, pos)], b, pos + |Padded(b[pos..EndOf(b, pos)])|, args);
    }
  }

  lemma {:induction false} DecodedTypes(tags: seq<byte>, b: seq<byte>, pos: nat, args: seq<Arg>)
    requires Decode(tags, b, pos) == Some(args)
    ensures AllAnnounced(Announced(tags), args)
    decreases |tags|
  {
    hide *;
    NotAnnounced(tags);
    if tags == [] {
      DecodeEnd(b, pos, args);
    } else {
      DecodeHead(tags, b, pos, args);
      if IsTag(tags[0]) {
        DecodedTypes(tags[1..], b, pos + |ArgBytes(args[0])|, args[1..]);
        HeadAnnounced(tags, b, pos, args);
      } else if tags[0] == COMMA {
        DecodedTypes(tags[1..], b, pos, args);
      }
    }
  }

  lemma NotAnnounced(tags: seq<byte>)
    ensures AllAnnounced([], [])
    ensures if tags == [] then Announced(tags) == []
            else if tags[0] == COMMA then Announced(tags) == Announced(tags[1..])
            else IsTag(tags[0]) || Announced(tags) == []
  {
  }

  lemma HeadAnnounced(tags: seq<byte>, b: seq<byte>, pos: nat, args: seq<Arg>)
    requires tags != [] && args != [] && IsTag(tags[0]) && DecodeArg(tags[0], b, pos) == Some(args[0])
    requires AllAnnounced(Announced(tags[1..]), args[1..])
    ensures AllAnnounced(Announced(tags), args)
  {
    assert Announces(tags[0], args[0]);
    hide DecodeArg, Announces;
    assert Announced(tags) == [tags[0]] + Announced(tags[1..]);
    assert args == [args[0]] + args[1..];
  }

  // ----- room for blobs

  lemma NextFits(args: seq<Arg>, k: nat)
    requires k < |args| && BlobsFit(args)
    ensures args[k].BlobArg? ==> BlobFits(args[..k])
  {
  }

  lemma BlobsFitSnoc(args: seq<Arg>, a: Arg)
    requires BlobsFit(args) && (a.BlobArg? ==> BlobFits(args))
    ensures BlobsFit(args + [a])
  {
    var after := args + [a];
    forall n: nat | n < |after| && after[n].BlobArg? ensures BlobFits(after[..n]) {
      if n == |args| {
        assert after[..n] == args;
      } else {
        assert after[..n] == args[..n];
      }
    }
  }

  /** The only blob of a message is always written in bounds. */
  lemma OneBlobFits(args: seq<Arg>)
    requires |Select(args, TAG_BLOB)| <= 1
    ensures BlobsFit(args)
  {
    forall n: nat | n < |args| && args[n].BlobArg? ensures BlobFits(args[..n]) {
      SelectAt(args, n);
      SelectPrefix(args, n + 1, TAG_BLOB);
    }
  }

  /** With two blobs and strings between them, the second blob is written in bounds exactly when
      there are two strings. */
  lemma TwoBlobsFit(x: Blob, y: Blob, strings: seq<Arg>)
    requires forall a | a in strings :: a.StringArg?
    ensures BlobsFit([BlobArg(x)] + strings + [BlobArg(y)]) <==> |strings| >= 2
  {
    var args := [BlobArg(x)] + strings + [BlobArg(y)];
    var before := [BlobArg(x)] + strings;
    StringsOnly(x, strings);
    hide Select;
    assert args[..|before|] == before && args[|before|] == BlobArg(y);
    assert Select(args[..0], TAG_BLOB) == [] by { NothingSelected(); }
    assert forall n | 0 < n < |before| :: args[n] == strings[n - 1] && strings[n - 1] in strings;
    assert BlobFits(before) <==> |strings| >= 2;
  }

  lemma NothingSelected()
    ensures Select([], TAG_BLOB) == []
  {
  }

  lemma {:induction false} StringsOnly(x: Blob, strings: seq<Arg>)
    requires forall a | a in strings :: a.StringArg?
    ensures Select([BlobArg(x)] + strings, TAG_BLOB) == [BlobArg(x)]
    ensures |Select([BlobArg(x)] + strings, TAG_STRING)| == |strings|
  {
    if strings == [] {
      SelectSnoc([], BlobArg(x), TAG_BLOB);
      SelectSnoc([], BlobArg(x), TAG_STRING);
      assert [] + [BlobArg(x)] == [BlobArg(x)] == [BlobArg(x)] + strings;
    } else {
      var init, last := strings[..|strings| - 1], strings[|strings| - 1];
      assert last in strings && forall a | a in init :: a in strings;
      StringsOnly(x, init);
      assert [BlobArg(x)] + strings == ([BlobArg(x)] + init) + [last];
      SelectSnoc([BlobArg(x)] + init, last, TAG_BLOB);
      SelectSnoc([BlobArg(x)] + init, last, TAG_STRING);
    }
  }

  /** The lists hold the arguments of their types, in order. */
  ghost predicate ByType(args: seq<Arg>, ints: seq<int>, floats: seq<int>, strings: seq<seq<byte>>, blobs: seq<Blob>) {
    && |Select(args, TAG_INT)| == |ints| && (forall i | 0 <= i < |ints| :: Select(args, TAG_INT)[i] == IntArg(ints[i]))
    && |Select(args, TAG_FLOAT)| == |floats|
    && (forall i | 0 <= i < |floats| :: Select(args, TAG_FLOAT)[i] == FloatArg(floats[i]))
    && |Select(args, TAG_STRING)| == |strings|
    && (forall i | 0 <= i < |strings| :: Select(args, TAG_STRING)[i] == StringArg(strings[i]))
    && |Select(args, TAG_BLOB)| == |blobs|
    && (forall i | 0 <= i < |blobs| :: Select(args, TAG_BLOB)[i] == BlobArg(blobs[i]))
  }

  // ----- messages

  class Message {
    var address: seq<byte>
    var typeTag: seq<byte>
    var ints: seq<int>
    var floats: seq<int>
    var strings: seq<seq<byte>>
    var blobs: seq<Blob>
    var buffer: array<byte>
    ghost var args: seq<Arg>

    /** The type tag and the argument lists hold the arguments. */
    ghost predicate Members()
      reads this`address, this`typeTag, this`ints, this`floats, this`strings, this`blobs, this`args
    {
      && IsText(address) && address != [] && address[0] == SLASH
      && typeTag == TypeTag(args)
      && (forall a | a in args :: IsArg(a))
      && ByType(args, ints, floats, strings, blobs) && BlobsFit(args)
    }

    ghost predicate Valid()
      reads this, buffer
    {
      Members() && buffer[..] == MessageBytes(address, args)
    }

    /** A message without arguments. */
    constructor (address: seq<byte>)
      requires IsText(address) && address != [] && address[0] == SLASH
      ensures Valid() && fresh(buffer) && this.address == address && args == []
    {
      this.address := address;
      typeTag := [COMMA];
      ints, floats, strings, blobs := [], [], [], [];
      args := [];
      buffer := new byte[0];
      new;
      assert Members();
      GenerateBufferFromMembers();
    }

    /** The public constructor refuses addresses without a slash. */
    static method New(address: seq<byte>) returns (outcome: Outcome, m: Message?)
      requires IsText(address)
      ensures outcome == if address != [] && address[0] == SLASH then Ok else InvalidAddressNoSlash
      ensures outcome == Ok ==> m != null && fresh(m) && m.Valid() && m.address == address && m.args == []
    {
      if address == [] || address[0] != SLASH { return InvalidAddressNoSlash, null; }
      m := new Message(address);
      outcome := Ok;
    }

    /** The sizing pass over the type tag. */
    method ArgumentsSize() returns (size: nat)
      requires Members()
      ensures size == |ArgsBytes(args)|
    {
      hide Members, ArgsBytes, Select, ByType, IsArg;
      MembersFacts();
      size := 0;
      var s, b := 0, 0;
      var i := 1;
      assert args[..0] == [];
      NoArgs();
      while i < |typeTag|
        invariant 1 <= i <= |typeTag| && size == |ArgsBytes(args[..i - 1])|
        invariant s == |Select(args[..i - 1], TAG_STRING)| && b == |Select(args[..i - 1], TAG_BLOB)|
      {
        ArgAt(i - 1);
        if typeTag[i] == TAG_INT {
          size := size + OSC_INT_SIZE;
        } else if typeTag[i] == TAG_FLOAT {
          size := size + OSC_FLOAT_SIZE;
        } else if typeTag[i] == TAG_STRING {
          size := size + GetSizeFourByteAligned(|strings[s]| + 1);
          s := s + 1;
        } else {
          size := size + BLOB_SIZE_SIZE + GetSizeFourByteAligned(|blobs[b].data|);
          b := b + 1;
        }
        i := i + 1;
      }
      assert args[..i - 1] == args;
    }

    lemma NoArgs()
      ensures ArgsBytes([]) == [] && forall tag :: Select([], tag) == []
    {
    }

    lemma MembersFacts()
      requires Members()
      ensures typeTag == TypeTag(args) && |typeTag| == |args| + 1
    {
    }

    /** The argument at position n, as it is found in the lists. */
    lemma ArgAt(n: nat)
      requires Members() && n < |args|
      ensures n + 1 < |typeTag| && typeTag[n + 1] == TagOf(args[n]) && IsArg(args[n])
      ensures ArgsBytes(args[..n + 1]) == ArgsBytes(args[..n]) + ArgBytes(args[n])
      ensures |ArgsBytes(args[..n + 1])| <= |ArgsBytes(args)|
      ensures forall tag ::
                |Select(args[..n + 1], tag)| == |Select(args[..n], tag)| + if tag == TagOf(args[n]) then 1 else 0
      ensures var k := |Select(args[..n], TagOf(args[n]))|;
              match args[n]
              case IntArg(x) => k < |ints| && ints[k] == x
              case FloatArg(bits) => k < |floats| && floats[k] == bits
              case StringArg(t) => k < |strings| && strings[k] == t
              case BlobArg(blob) => k < |blobs| && blobs[k] == blob && IsBlob(blob)
    {
      hide ArgsBytes, Select, ArgBytes;
      SelectAt(args, n);
      assert args[..n + 1] == args[..n] + [args[n]];
      ArgsBytesSnoc(args[..n], args[n]);
      ArgsBytesPrefix(args, n + 1);
      assert args[n] in args;
    }

    /** The sizing pass and the writing pass agree, and together they give the binary form. */
    method GenerateBufferFromMembers()
      requires Members()
      modifies this`buffer
      ensures fresh(buffer) && Valid()
    {
      hide Members, ArgsBytes, Select, ByType, IsArg, Padded, ArgBytes;
      MembersFacts();
      var size := ArgumentsSize();
      var header := |Padded(address)| + |Padded(typeTag)|;
      var out := new byte[header + size];
      PadStringWithZeros(out, 0, address);
      PadStringWithZeros(out, |Padded(address)|, typeTag);
      assert out[..0] == [];
      assert out[..header] == Padded(address) + Padded(typeTag);
      WriteArguments(out, header);
      assert out[..] == out[..header + size];
      buffer := out;
      MembersKept(out);
    }

    lemma MembersKept(out: array<byte>)
      requires Members() && buffer == out && out[..] == Padded(address) + Padded(typeTag) + ArgsBytes(args)
      ensures Valid()
    {
    }

    /** The writing pass. */
    method WriteArguments(out: array<byte>, header: nat)
      requires Members() && out.Length == header + |ArgsBytes(args)| && out != buffer
      modifies out
      ensures out[..] == old(out[..header]) + ArgsBytes(args)
    {
      hide Members, ArgsBytes, ArgBytes, Select, ByType, IsArg, Padded;
      MembersFacts();
      var pos := header;
      var n, f, s, b := 0, 0, 0, 0;
      var i := 1;
      assert args[..0] == [];
      NoArgs();
      while i < |typeTag|
        invariant 1 <= i <= |typeTag|
        invariant pos == header + |ArgsBytes(args[..i - 1])| && pos <= out.Length
        invariant out[..pos] == old(out[..header]) + ArgsBytes(args[..i - 1])
        invariant n == |Select(args[..i - 1], TAG_INT)| && f == |Select(args[..i - 1], TAG_FLOAT)|
        invariant s == |Select(args[..i - 1], TAG_STRING)| && b == |Select(args[..i - 1], TAG_BLOB)|
      {
        ArgAt(i - 1);
        pos := WriteArgument(out, pos, i, n, f, s, b);
        if typeTag[i] == TAG_INT {
          n := n + 1;
        } else if typeTag[i] == TAG_FLOAT {
          f := f + 1;
        } else if typeTag[i] == TAG_STRING {
          s := s + 1;
        } else {
          b := b + 1;
        }
        Associates(old(out[..header]), ArgsBytes(args[..i - 1]), ArgBytes(args[i - 1]));
        i := i + 1;
      }
      assert args[..i - 1] == args;
      assert out[..pos] == out[..];
    }

    /** Writes the next argument of the type that the tag names. */
    method WriteArgument(out: array<byte>, pos: nat, i: nat, n: nat, f: nat, s: nat, b: nat)
      returns (next: nat)
      requires Members() && 1 <= i < |typeTag| == |args| + 1 && pos + |ArgBytes(args[i - 1])| <= out.Length
      requires n == |Select(args[..i - 1], TAG_INT)| && f == |Select(args[..i - 1], TAG_FLOAT)|
      requires s == |Select(args[..i - 1], TAG_STRING)| && b == |Select(args[..i - 1], TAG_BLOB)|
      modifies out
      ensures next == pos + |ArgBytes(args[i - 1])| && out[..next] == old(out[..pos]) + ArgBytes(args[i - 1])
    {
      hide Members, ArgsBytes, Select, ByType, IsArg, Padded, IntBytes;
      ArgAt(i - 1);
      if typeTag[i] == TAG_INT {
        FillBufferWith(out, pos, ints[n]);
        next := pos + OSC_INT_SIZE;
      } else if typeTag[i] == TAG_FLOAT {
        FillBufferWith(out, pos, floats[f]);
        next := pos + OSC_FLOAT_SIZE;
      } else if typeTag[i] == TAG_STRING {
        PadStringWithZeros(out, pos, strings[s]);
        next := pos + |Padded(strings[s])|;
      } else {
        PutBytes(out, pos, BlobBytes(blobs[b]));
        next := pos + |BlobBytes(blobs[b])|;
      }
    }

    // ----- adding arguments

    method AddInt(x: int)
      requires Valid() && IsInt32(x)
      modifies this
      ensures Valid() && fresh(buffer) && address == old(address) && args == old(args) + [IntArg(x)]
    {
      hide Select, BlobsFit, ByType, TypeTag;
      Adding(IntArg(x));
      typeTag := typeTag + [TAG_INT];
      ints := ints + [x];
      args := args + [IntArg(x)];
      GenerateBufferFromMembers();
    }

    method AddFloat(bits: int)
      requires Valid() && 0 <= bits < 0x1_0000_0000
      modifies this
      ensures Valid() && fresh(buffer) && address == old(address) && args == old(args) + [FloatArg(bits)]
    {
      hide Select, BlobsFit, ByType, TypeTag;
      Adding(FloatArg(bits));
      typeTag := typeTag + [TAG_FLOAT];
      floats := floats + [bits];
      args := args + [FloatArg(bits)];
      GenerateBufferFromMembers();
    }

    method AddString(t: seq<byte>)
      requires Valid() && IsText(t)
      modifies this
      ensures Valid() && fresh(buffer) && address == old(address) && args == old(args) + [StringArg(t)]
    {
      hide Select, BlobsFit, ByType, TypeTag;
      Adding(StringArg(t));
      typeTag := typeTag + [TAG_STRING];
      strings := strings + [t];
      args := args + [StringArg(t)];
      GenerateBufferFromMembers();
    }

    /** From the second blob on the new array has room for as many blobs as there are strings. */
    method AddBlob(blob: Blob)
      requires Valid() && IsBlob(blob) && BlobFits(args)
      modifies this
      ensures Valid() && fresh(buffer) && address == old(address) && args == old(args) + [BlobArg(blob)]
    {
      hide Select, BlobsFit, ByType, TypeTag;
      Adding(BlobArg(blob));
      typeTag := typeTag + [TAG_BLOB];
      if |blobs| > 0 {
        blobs := GrownBlobs(blob);
      } else {
        assert blobs + [blob] == [blob];
        blobs := [blob];
      }
      args := args + [BlobArg(blob)];
      GenerateBufferFromMembers();
    }

    /** Copies the blobs to a new array, which is allocated with the number of strings. */
    method GrownBlobs(blob: Blob) returns (grown: seq<Blob>)
      requires 0 < |blobs| < |strings|
      ensures grown == blobs + [blob]
    {
      var numBlobs := |blobs| + 1;
      var newBlobs := new Blob[|strings|](_ => blob);
      var i := 0;
      while i < numBlobs - 1
        invariant 0 <= i < numBlobs <= newBlobs.Length && newBlobs[..i] == blobs[..i]
      {
        newBlobs[i] := blobs[i];
        i := i + 1;
      }
      newBlobs[numBlobs - 1] := blob;
      grown := newBlobs[..numBlobs];
    }

    /** What the members have to become when an argument is added. */
    lemma Adding(a: Arg)
      requires Members() && IsArg(a) && (a.BlobArg? ==> BlobFits(args))
      ensures typeTag + [TagOf(a)] == TypeTag(args + [a])
      ensures forall c | c in args + [a] :: IsArg(c)
      ensures BlobsFit(args + [a])
      ensures a.BlobArg? && |blobs| > 0 ==> |blobs| < |strings|
      ensures ByType(args + [a], if a.IntArg? then ints + [a.x] else ints,
                     if a.FloatArg? then floats + [a.bits] else floats,
                     if a.StringArg? then strings + [a.s] else strings, if a.BlobArg? then blobs + [a.blob] else blobs)
    {
      hide Select, IsArg;
      SelectSnoc(args, a, TAG_INT);
      SelectSnoc(args, a, TAG_FLOAT);
      SelectSnoc(args, a, TAG_STRING);
      SelectSnoc(args, a, TAG_BLOB);
      BlobsFitSnoc(args, a);
    }

    // ----- parsing

    /** The parsing constructor, on buffers that say something. */
    static method Parse(b: seq<byte>, ghost address: seq<byte>, ghost args: seq<Arg>)
      returns (outcome: Outcome, m: Message?)
      requires b != [] && b[0] == SLASH ==> Says(b, address, args) && BlobsFit(args)
      ensures outcome == if |b| < 1 then NullBuffer else if b[0] != SLASH then InvalidAddressNoSlash else Ok
      ensures outcome == Ok ==> m != null && fresh(m) && m.Valid() && m.address == address && m.args == args
    {
      hide Says, Decode, BlobsFit, Message.Members, Message.Valid, IsArg, EndOf, Padded;
      if |b| < 1 { return NullBuffer, null; }
      if b[0] != SLASH { return InvalidAddressNoSlash, null; }
      var text := b[..EndOf(b, 0)];
      TextOf(b, address, args);
      m := new Message(text);
      outcome := Ok;
      var pos := |Padded(text)|;
      if |b| <= pos { return; }
      var typeTag := b[pos..EndOf(b, pos)];
      pos := pos + |Padded(typeTag)|;
      m.ParseArguments(b, typeTag, pos, args);
    }

    /** Adds the arguments that the type tag announces. */
    method ParseArguments(b: seq<byte>, tags: seq<byte>, start: nat, ghost all: seq<Arg>)
      requires Valid() && args == [] && BlobsFit(all)
      requires Decode(tags, b, start) == Some(all)
      modifies this
      ensures fresh(buffer) || buffer == old(buffer)
      ensures Valid() && address == old(address) && args == all
    {
      hide Members, Valid, Decode, BlobsFit, IsArg, ArgBytes;
      var pos := start;
      var i := 0;
      assert tags[0..] == tags && all[0..] == all;
      while i < |tags|
        invariant 0 <= i <= |tags| && Valid() && address == old(address)
        invariant fresh(buffer) || buffer == old(buffer)
        invariant |args| <= |all| && args == all[..|args|]
        invariant Decode(tags[i..], b, pos) == Some(all[|args|..])
      {
        DecodeHead(tags[i..], b, pos, all[|args|..]);
        assert tags[i..][1..] == tags[i + 1..];
        if IsTag(tags[i]) {
          ghost var k := |args|;
          assert all[k..][0] == all[k] && all[k..][1..] == all[k + 1..];
          assert all[..k + 1] == all[..k] + [all[k]];
          NextFits(all, k);
          pos := ParseArgument(b, tags[i], pos, all[k]);
        } else if tags[i] != COMMA {
          break;
        }
        i := i + 1;
      }
      if i == |tags| { DecodeEnd(b, pos, all[|args|..]); }
    }

    /** One case of the scan: reads an argument and adds it. */
    method ParseArgument(b: seq<byte>, tag: byte, pos: nat, ghost a: Arg) returns (next: nat)
      requires Valid() && IsTag(tag) && DecodeArg(tag, b, pos) == Some(a) && (a.BlobArg? ==> BlobFits(args))
      modifies this
      ensures Valid() && fresh(buffer) && address == old(address) && args == old(args) + [a]
      ensures next == pos + |ArgBytes(a)|
    {
      hide Members, Valid, BlobFits, IntOf, WordOf, EndOf, Padded, IntBytes;
      if tag == TAG_INT {
        var x := BufferToInt(b, pos);
        AddInt(x);
        next := pos + OSC_INT_SIZE;
      } else if tag == TAG_FLOAT {
        var bits := BufferToWord(b, pos);
        AddFloat(bits);
        next := pos + OSC_FLOAT_SIZE;
      } else if tag == TAG_STRING {
        var t := b[pos..EndOf(b, pos)];
        AddString(t);
        next := pos + |Padded(t)|;
      } else {
        var blob := BlobFromBinary(b, pos);
        AddBlob(blob);
        next := pos + |BlobBytes(blob)|;
      }
    }

    static lemma TextOf(b: seq<byte>, address: seq<byte>, args: seq<Arg>)
      requires Says(b, address, args)
      ensures EndOf(b, 0) < |b| && IsText(b[..EndOf(b, 0)]) && b[..EndOf(b, 0)] == address
      ensures address != [] && address[0] == SLASH
      ensures var pos := |Padded(address)|;
              if |b| <= pos then args == []
              else EndOf(b, pos) < |b|
                   && Decode(b[pos..EndOf(b, pos)], b, pos + |Padded(b[pos..EndOf(b, pos)])|) == Some(args)
    {
      assert b[0..EndOf(b, 0)] == b[..EndOf(b, 0)];
    }
  }
}
