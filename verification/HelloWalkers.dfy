/**
  The walkers over a ClientHello: SNI and parseSNI (internal/faketls/client_hello.go), extractSNI and
  parseExtensions (internal/faketls/fingerprint.go), hasExtension (internal/faketls/client_hello_policy.go).
  */
module HelloWalkers {
  import opened Bytes
  import opened Net
  import opened ClientHello

  // ---------------------------------------------------------------------------
  // Walking the extension block
  // ---------------------------------------------------------------------------

  /** The names of a server_name list: the first host_name (type 0), if the walk reaches one. */
  function FirstHostName(data: bytes): (r: Option<bytes>)
    decreases |data|
  {
    if |data| < 3 then None
    else
      var n := FromBE16(data[1..3]);
      var rest := data[3..];
      if n > |rest| then None
      else if data[0] == 0 then Some(rest[..n])
      else FirstHostName(rest[n..])
  }

  /** parseSNI as a function; the empty string stands for no name. */
  function SniIn(exts: bytes): (r: bytes)
    decreases |exts|
  {
    if |exts| < 4 then []
    else
      var n := FromBE16(exts[2..4]);
      var rest := exts[4..];
      if n > |rest| then []
      else if FromBE16(exts[..2]) == 0 && n < 2 then []
      else if FromBE16(exts[..2]) == 0 && FirstHostName(rest[..n][2..]).Some? then FirstHostName(rest[..n][2..]).value
      else SniIn(rest[n..])
  }

  /** The extension types parseExtensions lists: those of whole extensions. */
  function TypesIn(exts: bytes): (r: seq<nat>)
    decreases |exts|
  {
    if |exts| < 4 then []
    else
      var n := FromBE16(exts[2..4]);
      var rest := exts[4..];
      if n > |rest| then [] else [FromBE16(exts[..2])] + TypesIn(rest[n..])
  }

  /** hasExtension's loop, which looks at a type before it knows that the extension is whole. */
  predicate HasType(exts: bytes, want: nat)
    decreases |exts|
  {
    |exts| >= 4 &&
    (FromBE16(exts[..2]) == want ||
     (var n := FromBE16(exts[2..4]); n <= |exts| - 4 && HasType(exts[4 + n..], want)))
  }

  /** The type of a last extension that runs past the end of the block. */
  function CutOffType(exts: bytes): (r: Option<nat>)
    decreases |exts|
  {
    if |exts| < 4 then None
    else
      var n := FromBE16(exts[2..4]);
      if n > |exts| - 4 then Some(FromBE16(exts[..2])) else CutOffType(exts[4 + n..])
  }

  /** On every byte string the two walkers differ exactly in the type of a cut-off last extension. */
  lemma {:induction false} WalkersAgreeUpToCutOff(exts: bytes, want: nat)
    ensures HasType(exts, want) <==> want in TypesIn(exts) || CutOffType(exts) == Some(want)
    decreases |exts|
  {
    hide Bytes.FromBE16;
    if |exts| >= 4 {
      var n := FromBE16(exts[2..4]);
      if n <= |exts| - 4 {
        assert exts[4..][n..] == exts[4 + n..];
        WalkersAgreeUpToCutOff(exts[4 + n..], want);
      }
    }
  }

  method ParseSni(exts: bytes) returns (r: bytes)
    ensures r == SniIn(exts)
  {
    hide Bytes.FromBE16;
    var pos := 0;
    while pos + 4 <= |exts|
      invariant 0 <= pos <= |exts|
      invariant SniIn(exts) == SniIn(exts[pos..])
    {
      assert exts[pos..][..2] == exts[pos..pos + 2] && exts[pos..][2..4] == exts[pos + 2..pos + 4];
      assert exts[pos..][4..] == exts[pos + 4..];
      var extType := FromBE16(exts[pos..pos + 2]);
      var extLen := FromBE16(exts[pos + 2..pos + 4]);
      pos := pos + 4;
      if pos + extLen > |exts| { return []; }
      assert exts[pos..][..extLen] == exts[pos..pos + extLen] && exts[pos..][extLen..] == exts[pos + extLen..];
      if extType == 0 {
        var data := exts[pos..pos + extLen];
        if |data| < 2 { return []; }
        var name := ScanNames(data[2..]);
        if name.Some? { return name.value; }
      }
      pos := pos + extLen;
    }
    r := [];
  }

  /** The inner loop of parseSNI. */
  method ScanNames(list: bytes) returns (r: Option<bytes>)
    ensures r == FirstHostName(list)
  {
    hide Bytes.FromBE16;
    var data := list;
    while |data| >= 3
      invariant FirstHostName(list) == FirstHostName(data)
      decreases |data|
    {
      var nameType := data[0];
      var nameLen := FromBE16(data[1..3]);
      data := data[3..];
      if nameLen > |data| { return None; }
      if nameType == 0 { return Some(data[..nameLen]); }
      data := data[nameLen..];
    }
    r := None;
  }

  /** parseUint16List as a function; an odd last byte is ignored. */
  function Words(data: bytes): (r: seq<nat>)
  {
    if |data| < 2 then [] else [FromBE16(data[..2])] + Words(data[2..])
  }

  method ParseUint16List(data: bytes) returns (words: seq<nat>)
    ensures words == Words(data)
  {
    hide Bytes.FromBE16;
    words := [];
    var i := 0;
    while i + 1 < |data|
      invariant 0 <= i <= |data| && Words(data) == words + Words(data[i..])
    {
      assert data[i..][..2] == data[i..i + 2] && data[i..][2..] == data[i + 2..];
      words := words + [FromBE16(data[i..i + 2])];
      i := i + 2;
    }
  }

  const SUPPORTED_GROUPS := 10
  const POINT_FORMATS := 11

  /** What parseExtensions collects. */
  datatype Listing = Listing(types: seq<nat>, curves: seq<nat>, formats: bytes)

  /**
    One whole extension of length n at the front of `rest`. The length inside a list of curves or formats is not
    checked against n, so the list may reach into what follows; None where it runs past the block.
    */
  function Note(l: Listing, kind: nat, n: nat, rest: bytes): (r: Option<Listing>)
    requires n <= |rest|
  {
    var l := l.(types := l.types + [kind]);
    if kind == SUPPORTED_GROUPS && n >= 2 then
      var end := 2 + FromBE16(rest[..2]);
      if end > |rest| then None else Some(l.(curves := Words(rest[2..end])))
    else if kind == POINT_FORMATS && n >= 1 then
      var end := 1 + rest[0] as int;
      if end > |rest| then None else Some(l.(formats := l.formats + rest[1..end]))
    else Some(l)
  }

  /** parseExtensions as a function of the block and of what was collected before it. */
  function ListingOf(l: Listing, exts: bytes): (r: Option<Listing>)
    decreases |exts|
  {
    if |exts| < 4 then Some(l)
    else
      var n := FromBE16(exts[2..4]);
      var rest := exts[4..];
      if n > |rest| then Some(l)
      else
        match Note(l, FromBE16(exts[..2]), n, rest)
        case None => None
        case Some(l') => ListingOf(l', rest[n..])
  }

  /** Its types are those of the whole extensions. */
  lemma {:induction false} ListingTypes(l: Listing, exts: bytes)
    ensures ListingOf(l, exts).Some? ==> ListingOf(l, exts).value.types == l.types + TypesIn(exts)
    decreases |exts|
  {
    hide Bytes.FromBE16, Words;
    if |exts| >= 4 {
      var n := FromBE16(exts[2..4]);
      var rest := exts[4..];
      if n <= |rest| {
        var l' := Note(l, FromBE16(exts[..2]), n, rest);
        if l'.Some? { ListingTypes(l'.value, rest[n..]); }
      }
    }
  }

  /** One turn of the loop, at a cursor. */
  lemma ListingStep(l: Listing, data: bytes, pos: nat)
    requires pos <= |data|
    ensures pos + 4 > |data| ==> ListingOf(l, data[pos..]) == Some(l)
    ensures pos + 4 <= |data| ==>
              var kind, n := FromBE16(data[pos..pos + 2]), FromBE16(data[pos + 2..pos + 4]);
              if pos + 4 + n > |data| then ListingOf(l, data[pos..]) == Some(l)
              else
                var l' := Note(l, kind, n, data[pos + 4..]);
                ListingOf(l, data[pos..]) == if l'.None? then None else ListingOf(l'.value, data[pos + 4 + n..])
  {
    hide Bytes.FromBE16, Note;
    if pos + 4 <= |data| {
      assert data[pos..][..2] == data[pos..pos + 2] && data[pos..][2..4] == data[pos + 2..pos + 4];
      assert data[pos..][4..] == data[pos + 4..];
      var n := FromBE16(data[pos + 2..pos + 4]);
      if pos + 4 + n <= |data| { assert data[pos + 4..][n..] == data[pos + 4 + n..]; }
    }
  }

  /** The body of the loop, on a whole extension at a cursor. */
  method NoteExtension(l: Listing, data: bytes, pos: nat, kind: nat, n: nat) returns (r: Option<Listing>)
    requires pos + n <= |data|
    ensures r == Note(l, kind, n, data[pos..])
  {
    hide Bytes.FromBE16, Words;
    var l := l.(types := l.types + [kind]);
    if kind == SUPPORTED_GROUPS && n >= 2 {
      assert data[pos..][..2] == data[pos..pos + 2];
      var end := 2 + FromBE16(data[pos..pos + 2]);
      if pos + end > |data| { return None; }
      assert data[pos..][2..end] == data[pos + 2..pos + end];
      var curves := ParseUint16List(data[pos + 2..pos + end]);
      l := l.(curves := curves);
    } else if kind == POINT_FORMATS && n >= 1 {
      var end := 1 + data[pos] as int;
      if pos + end > |data| { return None; }
      assert data[pos..][1..end] == data[pos + 1..pos + end];
      l := l.(formats := l.formats + data[pos + 1..pos + end]);
    }
    r := Some(l);
  }

  method ParseExtensions(data: bytes) returns (r: Option<Listing>)
    ensures r == ListingOf(Listing([], [], []), data)
  {
    hide Bytes.FromBE16, ListingOf, Note;
    var l := Listing([], [], []);
    var pos := 0;
    assert data[0..] == data;
    while pos + 4 <= |data|
      invariant 0 <= pos <= |data|
      invariant ListingOf(Listing([], [], []), data) == ListingOf(l, data[pos..])
    {
      ListingStep(l, data, pos);
      var extType := FromBE16(data[pos..pos + 2]);
      var extLen := FromBE16(data[pos + 2..pos + 4]);
      pos := pos + 4;
      if pos + extLen > |data| { return Some(l); }
      var noted := NoteExtension(l, data, pos, extType, extLen);
      if noted == None { return None; }
      l := noted.value;
      pos := pos + extLen;
    }
    ListingStep(l, data, pos);
    r := Some(l);
  }

  method HasExtensionIn(extData: bytes, want: nat) returns (r: bool)
    ensures r == HasType(extData, want)
  {
    hide Bytes.FromBE16;
    var p := 0;
    while p + 4 <= |extData|
      invariant 0 <= p
      invariant p <= |extData| ==> HasType(extData, want) == HasType(extData[p..], want)
      invariant p > |extData| ==> !HasType(extData, want)
    {
      assert extData[p..][..2] == extData[p..p + 2] && extData[p..][2..4] == extData[p + 2..p + 4];
      var extType := FromBE16(extData[p..p + 2]);
      var el := FromBE16(extData[p + 2..p + 4]);
      if extType == want { return true; }
      if 4 + el <= |extData[p..]| { assert extData[p..][4 + el..] == extData[p + 4 + el..]; }
      p := p + 4;
      p := p + el;
    }
    r := false;
  }

  // ---------------------------------------------------------------------------
  // Finding the extension block
  // ---------------------------------------------------------------------------

  /** Beyond means that a slice runs past the message, where the result depends on the buffer behind it. */
  datatype Located = Block(exts: bytes) | Absent | Beyond

  /** The cursor steps that SNI, extractSNI and hasExtension share, from the session id on. */
  function Locate(hello: bytes): (r: Located)
    requires |hello| > 34
  {
    var pos := 35 + hello[34] as int;
    if pos + 2 > |hello| then Absent
    else
      var pos := pos + 2 + FromBE16(hello[pos..pos + 2]);
      if pos >= |hello| then Absent
      else
        var pos := pos + 1 + hello[pos] as int;
        if pos + 2 > |hello| then Absent
        else
          var n := FromBE16(hello[pos..pos + 2]);
          if pos + 2 + n > |hello| then Beyond else Block(hello[pos + 2..pos + 2 + n])
  }

  /** The message inside a record, where the walkers that start from the record find it. */
  function Message(raw: bytes): (r: Option<bytes>)
  {
    if |raw| < 9 || raw[5] != 1 then None
    else
      var n := FromBE24(raw[6..9]);
      if |raw| - 9 < n then None else Some(raw[9..9 + n])
  }

  /** Where that is, byte by byte. */
  lemma MessageMeans(raw: bytes)
    ensures |raw| < 9 ==> Message(raw) == None
    ensures |raw| >= 9 ==>
              var n := 65536 * (raw[6] as int) + 256 * (raw[7] as int) + raw[8] as int;
              Message(raw) == if raw[5] == 1 && n <= |raw| - 9 then Some(raw[9..9 + n]) else None
  {
    hide Bytes.FromBE24;
    if |raw| >= 9 { BigEndian24(raw[6..9]); }
  }

  /** ClientHello.SNI; None where it would run past its buffer. */
  function Sni(raw: bytes): (r: Option<bytes>)
  {
    match Message(raw)
    case None => Some([])
    case Some(hello) =>
      if 34 >= |hello| then Some([])
      else
        match Locate(hello)
        case Absent => Some([])
        case Beyond => None
        case Block(exts) => Some(SniIn(exts))
  }

  /** extractSNI, which gets the message and indexes it unchecked. */
  function ExtractSni(hello: bytes): (r: Option<bytes>)
  {
    if |hello| <= 34 then None
    else
      match Locate(hello)
      case Absent => Some([])
      case Beyond => None
      case Block(exts) => Some(SniIn(exts))
  }

  function HasExtension(raw: bytes, want: nat): (r: Option<bool>)
  {
    match Message(raw)
    case None => Some(false)
    case Some(hello) =>
      if |hello| < 34 then Some(false)
      else if |hello| == 34 then None
      else
        match Locate(hello)
        case Absent => Some(false)
        case Beyond => None
        case Block(exts) => Some(HasType(exts, want))
  }

  // ---------------------------------------------------------------------------
  // Well-formed hellos: section 4.1.2 of RFC 8446, section 3 of RFC 6066
  // ---------------------------------------------------------------------------

  datatype Name = Name(kind: byte, name: bytes)

  datatype Extension = ServerName(names: seq<Name>) | OtherExtension(kind: nat, data: bytes)

  function EncodeNames(names: seq<Name>): (s: bytes)
    requires forall n :: n in names ==> |n.name| < TWO_16
  {
    if names == [] then [] else [names[0].kind] + BE16(|names[0].name|) + names[0].name + EncodeNames(names[1..])
  }

  predicate ValidExtension(e: Extension) {
    match e
    case ServerName(names) => (forall n :: n in names ==> |n.name| < TWO_16) && |EncodeNames(names)| + 2 < TWO_16
    case OtherExtension(kind, data) => 0 < kind < TWO_16 && |data| < TWO_16
  }

  function ExtensionData(e: Extension): (s: bytes)
    requires ValidExtension(e)
    ensures |s| < TWO_16
  {
    match e
    case ServerName(names) => BE16(|EncodeNames(names)|) + EncodeNames(names)
    case OtherExtension(_, data) => data
  }

  function ExtensionKind(e: Extension): (n: nat)
  {
    if e.ServerName? then 0 else e.kind
  }

  function EncodeExtensions(es: seq<Extension>): (s: bytes)
    requires forall e :: e in es ==> ValidExtension(e)
  {
    if es == [] then []
    else
      var e := es[0];
      assert ValidExtension(e);
      BE16(ExtensionKind(e)) + BE16(|ExtensionData(e)|) + ExtensionData(e) + EncodeExtensions(es[1..])
  }

  /** The first host_name in a list of names, and in a list of extensions. */
  function HostOfNames(names: seq<Name>): (r: Option<bytes>)
  {
    if names == [] then None else if names[0].kind == 0 then Some(names[0].name) else HostOfNames(names[1..])
  }

  function HostOf(es: seq<Extension>): (r: bytes)
  {
    if es == [] then []
    else if es[0].ServerName? && HostOfNames(es[0].names).Some? then HostOfNames(es[0].names).value
    else HostOf(es[1..])
  }

  /** That is, the first name of type 0. */
  lemma {:induction false} HostIsFirstOfTypeZero(names: seq<Name>, i: nat)
    requires i <= |names| && forall j :: 0 <= j < i ==> names[j].kind != 0
    ensures i == |names| ==> HostOfNames(names) == None
    ensures i < |names| && names[i].kind == 0 ==> HostOfNames(names) == Some(names[i].name)
    decreases i
  {
    if i > 0 { HostIsFirstOfTypeZero(names[1..], i - 1); }
  }

  function Kinds(es: seq<Extension>): (r: seq<nat>)
  {
    if es == [] then [] else [ExtensionKind(es[0])] + Kinds(es[1..])
  }

  lemma {:induction false} NamesReadBack(names: seq<Name>)
    requires forall n :: n in names ==> |n.name| < TWO_16
    ensures FirstHostName(EncodeNames(names)) == HostOfNames(names)
    decreases |names|
  {
    hide Bytes.BE16, Bytes.FromBE16;
    if names == [] {
    } else {
      var x, rest := names[0], EncodeNames(names[1..]);
      var s := EncodeNames(names);
      assert s[0] == x.kind && s[1..3] == BE16(|x.name|);
      assert s[3..] == x.name + rest;
      assert (x.name + rest)[..|x.name|] == x.name && (x.name + rest)[|x.name|..] == rest;
      NamesReadBack(names[1..]);
    }
  }

  lemma ExtensionSlices(kind: bytes, len: bytes, data: bytes, rest: bytes)
    requires |kind| == 2 && |len| == 2
    ensures var s := kind + len + data + rest;
            && s[..2] == kind && s[2..4] == len && s[4..] == data + rest
            && (data + rest)[..|data|] == data && (data + rest)[|data|..] == rest
  {}

  /** All three walkers see exactly the extensions that were encoded. */
  lemma {:induction false} ExtensionsReadBack(es: seq<Extension>)
    requires forall e :: e in es ==> ValidExtension(e)
    ensures TypesIn(EncodeExtensions(es)) == Kinds(es)
    ensures CutOffType(EncodeExtensions(es)) == None
    ensures SniIn(EncodeExtensions(es)) == HostOf(es)
    decreases |es|
  {
    hide Bytes.BE16, Bytes.FromBE16, FirstHostName, HostOfNames, ExtensionData;
    if es == [] {
    } else {
      var e := es[0];
      assert ValidExtension(e);
      var kind, len, data, rest := BE16(ExtensionKind(e)), BE16(|ExtensionData(e)|), ExtensionData(e), EncodeExtensions(es[1..]);
      var s := EncodeExtensions(es);
      assert s == kind + len + data + rest;
      ExtensionSlices(kind, len, data, rest);
      ServerNameReadsBack(e);
      assert s[4 + |data|..] == s[4..][|data|..];
      ExtensionsReadBack(es[1..]);
    }
  }

  lemma ServerNameReadsBack(e: Extension)
    requires ValidExtension(e)
    ensures e.ServerName? ==> |ExtensionData(e)| >= 2 && FirstHostName(ExtensionData(e)[2..]) == HostOfNames(e.names)
    ensures ExtensionKind(e) == 0 <==> e.ServerName?
  {
    hide Bytes.BE16, FirstHostName, HostOfNames;
    if e.ServerName? {
      assert ExtensionData(e)[2..] == EncodeNames(e.names);
      NamesReadBack(e.names);
    }
  }

  /** A list of groups or formats fills its extension: section 4.2.7 of RFC 8446, section 5.1.2 of RFC 8422. */
  predicate ListsFill(e: Extension)
    requires ValidExtension(e)
  {
    var data := ExtensionData(e);
    && (ExtensionKind(e) == SUPPORTED_GROUPS ==> |data| >= 2 && FromBE16(data[..2]) == |data| - 2)
    && (ExtensionKind(e) == POINT_FORMATS ==> |data| >= 1 && data[0] == |data| - 1)
  }

  /** What an extension adds to the listing. */
  function Added(l: Listing, e: Extension): (r: Listing)
    requires ValidExtension(e) && ListsFill(e)
  {
    var kind, data := ExtensionKind(e), ExtensionData(e);
    Listing(l.types + [kind],
            if kind == SUPPORTED_GROUPS then Words(data[2..]) else l.curves,
            if kind == POINT_FORMATS then l.formats + data[1..] else l.formats)
  }

  function AddedAll(l: Listing, es: seq<Extension>): (r: Listing)
    requires forall e :: e in es ==> ValidExtension(e) && ListsFill(e)
    decreases |es|
  {
    if es == [] then l else assert es[0] in es; AddedAll(Added(l, es[0]), es[1..])
  }

  lemma NotedIsAdded(l: Listing, e: Extension, more: bytes)
    requires ValidExtension(e) && ListsFill(e)
    ensures Note(l, ExtensionKind(e), |ExtensionData(e)|, ExtensionData(e) + more) == Some(Added(l, e))
  {
    hide Bytes.FromBE16, Words, ExtensionData, ValidExtension;
    var data := ExtensionData(e);
    var rest := data + more;
    if |data| >= 2 { assert rest[..2] == data[..2] && rest[2..|data|] == data[2..]; }
    if |data| >= 1 { assert rest[0] == data[0] && rest[1..|data|] == data[1..]; }
  }

  /** On encoded extensions parseExtensions collects exactly their types, the last list of groups and all formats. */
  lemma {:induction false} ListingReadsBack(l: Listing, es: seq<Extension>)
    requires forall e :: e in es ==> ValidExtension(e) && ListsFill(e)
    ensures ListingOf(l, EncodeExtensions(es)) == Some(AddedAll(l, es))
    decreases |es|
  {
    hide Bytes.BE16, Bytes.FromBE16, ExtensionData, ListsFill, Added, Note;
    if es == [] {
    } else {
      var e := es[0];
      assert e in es;
      var kind, len, data, rest := BE16(ExtensionKind(e)), BE16(|ExtensionData(e)|), ExtensionData(e), EncodeExtensions(es[1..]);
      ExtensionSlices(kind, len, data, rest);
      NotedIsAdded(l, e, rest);
      ListingReadsBack(Added(l, e), es[1..]);
    }
  }

  /** So the groups are those of extension 10, and the point formats those of extension 11. */
  lemma GroupsReadBack(l: Listing, groups: seq<uint16>, formats: bytes)
    requires 2 * |groups| + 2 < TWO_16 && |formats| < 256
    ensures var es := [OtherExtension(10, BE16(2 * |groups|) + EncodeWords(groups)), OtherExtension(11, [|formats|] + formats)];
            && (forall e :: e in es ==> ValidExtension(e))
            && ListingOf(l, EncodeExtensions(es)) == Some(Listing(l.types + [10, 11], groups, l.formats + formats))
  {
    hide Bytes.BE16, Bytes.FromBE16, EncodeExtensions, ListingOf, Words, EncodeWords;
    var x, y := OtherExtension(10, BE16(2 * |groups|) + EncodeWords(groups)), OtherExtension(11, [|formats|] + formats);
    assert x.data[..2] == BE16(2 * |groups|) && x.data[2..] == EncodeWords(groups) && y.data[1..] == formats;
    WordsReadBack(groups);
    ListingReadsBack(l, [x, y]);
    var m := Added(l, x);
    assert [x, y][1..] == [y] && [y][1..] == [];
    assert AddedAll(l, [x, y]) == AddedAll(m, [y]) == Added(m, y);
    assert l.types + [10] + [11] == l.types + [10, 11];
  }

  /** The words of an encoded list are the list. */
  lemma {:induction false} WordsReadBack(words: seq<uint16>)
    ensures Words(EncodeWords(words)) == words
  {
    hide Bytes.BE16, Bytes.FromBE16;
    if words != [] {
      var s := EncodeWords(words);
      assert s[..2] == BE16(words[0]) && s[2..] == EncodeWords(words[1..]);
      WordsReadBack(words[1..]);
    }
  }

  // ---------------------------------------------------------------------------
  // Whole hellos
  // ---------------------------------------------------------------------------

  /** The fields of a ClientHello. */
  datatype Fields = Fields(
    version: bytes, random: bytes, sessionId: bytes, suites: seq<uint16>, compression: bytes, extensions: seq<Extension>)

  function EncodeWords(words: seq<uint16>): (s: bytes)
    ensures |s| == 2 * |words|
  {
    if words == [] then [] else BE16(words[0]) + EncodeWords(words[1..])
  }

  predicate ValidFields(f: Fields) {
    && |f.version| == 2 && |f.random| == 32 && |f.sessionId| <= 32
    && 1 <= |f.suites| < 0x8000
    && 1 <= |f.compression| < 256
    && (forall e :: e in f.extensions ==> ValidExtension(e))
    && |EncodeExtensions(f.extensions)| < TWO_16
  }

  /** Everything behind the random. */
  function EncodeTail(f: Fields): (s: bytes)
    requires ValidFields(f)
  {
    [|f.sessionId|] + f.sessionId
    + BE16(2 * |f.suites|) + EncodeWords(f.suites)
    + [|f.compression|] + f.compression
    + BE16(|EncodeExtensions(f.extensions)|) + EncodeExtensions(f.extensions)
  }

  function EncodeMessage(f: Fields): (s: bytes)
    requires ValidFields(f)
    ensures |s| == 34 + |EncodeTail(f)|
  {
    f.version + f.random + EncodeTail(f)
  }

  /** Hellos that fit into one record the server admits. */
  predicate Valid(f: Fields) {
    ValidFields(f) && 4 + |EncodeMessage(f)| <= MAX_RECORD
  }

  function EncodeRecord(f: Fields): (s: bytes)
    requires Valid(f)
    ensures |s| == 9 + |EncodeMessage(f)|
  {
    [HANDSHAKE, 3, 1] + BE16(4 + |EncodeMessage(f)|) + [1] + BE24(|EncodeMessage(f)|) + EncodeMessage(f)
  }

  lemma RecordSlices(f: Fields, rest: bytes)
    requires Valid(f)
    ensures var s := EncodeRecord(f) + rest;
            var m := EncodeMessage(f);
            && s[0] == HANDSHAKE && FromBE16(s[3..5]) == 4 + |m| && s[..9 + |m|] == EncodeRecord(f)
            && EncodeRecord(f)[5..][..4] == [1] + BE24(|m|) && EncodeRecord(f)[5..][4..] == m
            && EncodeRecord(f)[5] == 1 && EncodeRecord(f)[6..9] == BE24(|m|) && EncodeRecord(f)[9..] == m
  {
    hide Bytes.BE16, Bytes.FromBE16, Bytes.BE24, Bytes.FromBE24, EncodeMessage;
    var s := EncodeRecord(f) + rest;
    assert s[3..5] == BE16(4 + |EncodeMessage(f)|);
  }

  lemma TailSlices(sid: bytes, csLen: bytes, cs: bytes, comp: bytes, extLen: bytes, exts: bytes, version: bytes, random: bytes)
    requires |sid| < 256 && |comp| < 256 && |csLen| == 2 && |extLen| == 2 && |version| == 2 && |random| == 32
    ensures var m := version + random + ([|sid|] + sid + csLen + cs + [|comp|] + comp + extLen + exts);
            var a := 35 + |sid|;
            var b := a + 2 + |cs|;
            var c := b + 1 + |comp|;
            && |m| == c + 2 + |exts|
            && m[2..34] == random && m[34] == |sid| && m[35..a] == sid && m[a..a + 2] == csLen
            && m[a + 2..b] == cs && m[b] == |comp| && m[c..c + 2] == extLen && m[c + 2..] == exts
  {}

  lemma MessageSlices(f: Fields)
    requires ValidFields(f)
    ensures var m := EncodeMessage(f);
            var cs, exts := EncodeWords(f.suites), EncodeExtensions(f.extensions);
            var a := 35 + |f.sessionId|;
            var b := a + 2 + |cs|;
            var c := b + 1 + |f.compression|;
            && |m| == c + 2 + |exts|
            && m[2..34] == f.random && m[34] == |f.sessionId| && m[35..a] == f.sessionId
            && FromBE16(m[a..a + 2]) == |cs| && m[a + 2..b] == cs && m[b] == |f.compression|
            && FromBE16(m[c..c + 2]) == |exts| && m[c + 2..] == exts
  {
    hide Bytes.BE16, Bytes.FromBE16, EncodeWords, EncodeExtensions, ValidExtension;
    var cs, exts := EncodeWords(f.suites), EncodeExtensions(f.extensions);
    TailSlices(f.sessionId, BE16(|cs|), cs, f.compression, BE16(|exts|), exts, f.version, f.random);
  }

  /** Parsing a well-formed hello returns its random, its session id and its first cipher suite. */
  lemma HelloReadsBack(f: Fields, rest: bytes)
    requires Valid(f)
    ensures Parse(EncodeRecord(f) + rest) == Parsed(Hello(EncodeRecord(f), f.random, f.sessionId, f.suites[0]))
  {
    hide Bytes.BE16, Bytes.FromBE16, Bytes.BE24, Bytes.FromBE24, EncodeMessage, EncodeRecord, EncodeWords, EncodeExtensions;
    var m := EncodeMessage(f);
    RecordSlices(f, rest);
    MessageSlices(f);
    FirstSuite(f.suites);
    var raw := EncodeRecord(f);
    var a := 35 + |f.sessionId|;
    assert raw[5..][1..4] == raw[5..][..4][1..] == BE24(|m|) && raw[5..][0] == raw[5..][..4][0];
    assert m[a + 2..a + 4] == m[a + 2..a + 2 + 2 * |f.suites|][..2];
  }

  lemma FirstSuite(suites: seq<uint16>)
    requires suites != []
    ensures FromBE16(EncodeWords(suites)[..2]) == suites[0]
  {
    hide Bytes.BE16, Bytes.FromBE16;
    assert EncodeWords(suites)[..2] == BE16(suites[0]);
  }

  lemma BlockFound(f: Fields)
    requires Valid(f)
    ensures Message(EncodeRecord(f)) == Some(EncodeMessage(f))
    ensures |EncodeMessage(f)| > 34 && Locate(EncodeMessage(f)) == Block(EncodeExtensions(f.extensions))
  {
    hide Bytes.BE16, Bytes.FromBE16, Bytes.BE24, Bytes.FromBE24, EncodeMessage, EncodeRecord, EncodeWords, EncodeExtensions;
    RecordSlices(f, []);
    MessageSlices(f);
    var m := EncodeMessage(f);
    assert EncodeRecord(f)[9..9 + |m|] == m;
  }

  /** On every well-formed hello the walkers agree with the fields and with each other. */
  lemma WalkersAgree(f: Fields, want: nat)
    requires Valid(f)
    ensures Sni(EncodeRecord(f)) == ExtractSni(EncodeMessage(f)) == Some(HostOf(f.extensions))
    ensures TypesIn(EncodeExtensions(f.extensions)) == Kinds(f.extensions)
    ensures HasExtension(EncodeRecord(f), want) == Some(want in Kinds(f.extensions))
  {
    hide EncodeMessage, EncodeRecord, EncodeExtensions, TypesIn, SniIn, HasType, CutOffType, Locate, Message;
    BlockFound(f);
    ExtensionsReadBack(f.extensions);
    WalkersAgreeUpToCutOff(EncodeExtensions(f.extensions), want);
  }

  /** Stamping a well-formed hello is replacing its random. */
  lemma StampIsRandom(hmac: Hmac, key: bytes, f: Fields, ts: nat)
    requires Valid(f) && ts < TWO_32
    ensures |EncodeRecord(f)| >= RANDOM_END
    ensures var random := StampedRandom(hmac(key, Zeroed(EncodeRecord(f))), ts);
            Valid(f.(random := random)) && Stamp(hmac, key, EncodeRecord(f), ts) == EncodeRecord(f.(random := random))
  {
    hide EncodeTail, EncodeRecord, EncodeMessage, StampedRandom, ValidFields, Zeroed;
    RecordAroundRandom(f);
    var random := StampedRandom(hmac(key, Zeroed(EncodeRecord(f))), ts);
    TailIgnoresRandom(f, random);
    var g := f.(random := random);
    RecordAroundRandom(g);
    assert EncodeRecord(f)[..11] == EncodeRecord(g)[..11] && EncodeRecord(f)[43..] == EncodeRecord(g)[43..];
    assert EncodeRecord(g) == EncodeRecord(g)[..11] + EncodeRecord(g)[11..43] + EncodeRecord(g)[43..];
  }

  /** A record is a header that depends on the length only, the random, and the rest. */
  lemma RecordAroundRandom(f: Fields)
    requires Valid(f)
    ensures var r := EncodeRecord(f);
            && |r| == 43 + |EncodeTail(f)| && r[11..43] == f.random && r[43..] == EncodeTail(f)
            && r[..11] == [HANDSHAKE, 3, 1] + BE16(38 + |EncodeTail(f)|) + [1] + BE24(34 + |EncodeTail(f)|) + f.version
  {
    hide Bytes.BE16, Bytes.BE24, EncodeTail, ValidExtension, EncodeExtensions;
  }

  lemma TailIgnoresRandom(f: Fields, random: Random)
    requires ValidFields(f)
    ensures ValidFields(f.(random := random)) && EncodeTail(f.(random := random)) == EncodeTail(f)
    ensures |EncodeMessage(f.(random := random))| == |EncodeMessage(f)|
  {
    hide EncodeExtensions, EncodeWords, ValidExtension;
  }

  /**
    Stamp and check agree: a well-formed hello, stamped and sent, is parsed with the random it was stamped
    with, and validates with the same key exactly when the two clocks differ by at most two minutes.
    */
  lemma StampedHelloChecks(hmac: Hmac, key: bytes, f: Fields, ts: nat, now: int, rest: bytes)
    requires Valid(f) && ts < TWO_32
    ensures |EncodeRecord(f)| >= RANDOM_END
    ensures var raw := Stamp(hmac, key, EncodeRecord(f), ts);
            && Parse(raw + rest).Parsed?
            && var h := Parse(raw + rest).hello;
            && h.raw == raw && h.random == raw[RANDOM_OFFSET..RANDOM_END]
            && h.sessionId == f.sessionId && h.cipherSuite == f.suites[0]
            && Validate(hmac, key, h.raw, h.random, now) == if InWindow(now, ts) then Ok else BadTimestamp
  {
    hide EncodeRecord, EncodeMessage, Parse, StampedRandom, Validate, Zeroed, Stamp;
    StampIsRandom(hmac, key, f, ts);
    var g := f.(random := StampedRandom(hmac(key, Zeroed(EncodeRecord(f))), ts));
    HelloReadsBack(g, rest);
    RandomIsInRaw(EncodeRecord(g) + rest);
    StampValidates(hmac, key, EncodeRecord(f), ts, now);
  }
}
