/** The DHCP hook of src/network.c that asks for two more parameters: it rewrites the option
    bytes of a request in place, through a copy. Options are laid out as in section 2 of
    RFC 2132: a code, a length, and that many bytes; option 55 (section 9.8) lists parameter
    codes. The hook reads a length after every code, so the pad and end options (0 and 255),
    which have none, must not be there yet. */
module DhcpOptions {
  import opened Bytes

  datatype Opt = Opt(code: byte, data: seq<byte>)

  const PARAMETER_REQUEST: byte := 55
  const NEW_PARAMETERS: seq<byte> := [7, 100]

  datatype Decoded = Malformed | Options(opts: seq<Opt>)

  // ---- the format ----

  ghost predicate WellFormed(opts: seq<Opt>) {
    forall i :: 0 <= i < |opts| ==> opts[i].code != 0 && opts[i].code != 255 && |opts[i].data| <= 255
  }

  function Encode(opts: seq<Opt>): seq<byte>
    requires forall i :: 0 <= i < |opts| ==> |opts[i].data| <= 255
  {
    if opts == [] then [] else [opts[0].code, |opts[0].data|] + opts[0].data + Encode(opts[1..])
  }

  function Decode(bytes: seq<byte>): Decoded
    decreases |bytes|
  {
    if bytes == [] then Options([])
    else if |bytes| < 2 || |bytes| < 2 + bytes[1] as int then Malformed
    else match Decode(bytes[2 + bytes[1] as int..])
      case Malformed => Malformed
      case Options(rest) => Options([Opt(bytes[0], bytes[2..2 + bytes[1] as int])] + rest)
  }

  lemma {:induction false} DecodeEncode(opts: seq<Opt>)
    requires forall i :: 0 <= i < |opts| ==> |opts[i].data| <= 255
    ensures Decode(Encode(opts)) == Options(opts)
  {
    if opts != [] {
      var o, rest := opts[0], opts[1..];
      DecodeEncode(rest);
      DecodeFirst(o, Encode(rest), rest);
      assert [o] + rest == opts;
    }
  }

  /** In the bytes each option is its code, its length and its data, with nothing in between. */
  lemma {:induction false} EncodedApart(a: seq<Opt>, o: Opt, b: seq<Opt>)
    requires |o.data| <= 255 && AllShort(a) && AllShort(b)
    ensures AllShort(a + [o] + b)
    ensures Encode(a + [o] + b) == Encode(a) + ([o.code, |o.data|] + o.data) + Encode(b)
  {
    var all := a + [o] + b;
    if a == [] {
      assert all == [o] + b && all[1..] == b;
    } else {
      assert all[1..] == a[1..] + [o] + b;
      assert AllShort(all[1..]);
      EncodedApart(a[1..], o, b);
      InFront([a[0].code, |a[0].data|] + a[0].data, Encode(a[1..]), [o.code, |o.data|] + o.data, Encode(b));
    }
  }

  ghost predicate AllShort(opts: seq<Opt>) {
    forall i :: 0 <= i < |opts| ==> |opts[i].data| <= 255
  }

  lemma InFront(a: seq<byte>, b: seq<byte>, c: seq<byte>, d: seq<byte>)
    ensures a + (b + c + d) == a + b + c + d
  {
  }

  /** Bytes decode to some options exactly when they are those options' encoding. */
  lemma DecodeExactly(bytes: seq<byte>, opts: seq<Opt>)
    ensures Decode(bytes) == Options(opts) <==> AllShort(opts) && bytes == Encode(opts)
  {
    if AllShort(opts) {
      DecodeEncode(opts);
    }
    EncodeDecode(bytes);
  }

  lemma {:induction false} EncodeDecode(bytes: seq<byte>)
    ensures Decode(bytes).Options? ==> AllShort(Decode(bytes).opts) && bytes == Encode(Decode(bytes).opts)
    decreases |bytes|
  {
    if bytes != [] && Decode(bytes).Options? {
      var n := 2 + bytes[1] as int;
      EncodeDecode(bytes[n..]);
      var o, rest := Opt(bytes[0], bytes[2..n]), Decode(bytes[n..]).opts;
      assert Decode(bytes).opts == [o] + rest;
      assert ([o] + rest)[1..] == rest;
      InThree(bytes, n);
    }
  }

  lemma InThree(bytes: seq<byte>, n: nat)
    requires 2 <= n <= |bytes|
    ensures bytes == [bytes[0], bytes[1]] + bytes[2..n] + bytes[n..]
  {
  }

  /** The bytes of an option in front of others. */
  lemma OptionApart(code: byte, len: byte, data: seq<byte>, rest: seq<byte>)
    ensures var bytes, n := [code, len] + data + rest, 2 + |data|;
            && |bytes| == n + |rest| && bytes[0] == code && bytes[1] == len
            && bytes[2..n] == data && bytes[n..] == rest
  {
  }

  lemma DecodeFirst(o: Opt, more: seq<byte>, rest: seq<Opt>)
    requires |o.data| <= 255 && Decode(more) == Options(rest)
    ensures Decode([o.code, |o.data|] + o.data + more) == Options([o] + rest)
  {
    OptionApart(o.code, |o.data|, o.data, more);
    DecodeOne([o.code, |o.data|] + o.data + more, o, rest);
  }

  lemma DecodeOne(bytes: seq<byte>, o: Opt, rest: seq<Opt>)
    requires |bytes| >= 2 + |o.data| && bytes[0] == o.code && bytes[1] == |o.data|
    requires bytes[2..2 + |o.data|] == o.data && Decode(bytes[2 + |o.data|..]) == Options(rest)
    ensures Decode(bytes) == Options([o] + rest)
  {
  }

  // ---- what the hook makes of a list of options ----

  function Extended(o: Opt): Opt {
    if o.code == PARAMETER_REQUEST then Opt(o.code, o.data + NEW_PARAMETERS) else o
  }

  function AllExtended(opts: seq<Opt>): seq<Opt> {
    seq(|opts|, i requires 0 <= i < |opts| => Extended(opts[i]))
  }

  /** The bytes the hook writes for one option; the length is a u8_t. */
  function Rewritten(o: Opt): seq<byte>
    requires |o.data| <= 255
  {
    if o.code == PARAMETER_REQUEST then [o.code, (|o.data| + 2) % 256] + o.data + NEW_PARAMETERS
    else [o.code, |o.data|] + o.data
  }

  function AllRewritten(opts: seq<Opt>): seq<byte>
    requires forall i :: 0 <= i < |opts| ==> |opts[i].data| <= 255
  {
    if opts == [] then [] else Rewritten(opts[0]) + AllRewritten(opts[1..])
  }

  function Requests(opts: seq<Opt>): nat {
    if opts == [] then 0 else (if opts[0].code == PARAMETER_REQUEST then 1 else 0) + Requests(opts[1..])
  }

  lemma {:induction false} RewrittenLength(opts: seq<Opt>)
    requires forall i :: 0 <= i < |opts| ==> |opts[i].data| <= 255
    ensures |AllRewritten(opts)| == |Encode(opts)| + 2 * Requests(opts)
  {
    if opts != [] {
      RewrittenLength(opts[1..]);
    }
  }

  lemma {:induction false} RewrittenSnoc(opts: seq<Opt>, o: Opt)
    requires forall i :: 0 <= i < |opts| ==> |opts[i].data| <= 255
    requires |o.data| <= 255
    ensures AllRewritten(opts + [o]) == AllRewritten(opts) + Rewritten(o)
  {
    if opts == [] {
      assert opts + [o] == [o];
    } else {
      assert (opts + [o])[1..] == opts[1..] + [o];
      RewrittenSnoc(opts[1..], o);
    }
  }

  /** Copies `len` option bytes; the inner loops of the hook. */
  method CopyBytes(from: seq<byte>, fromPtr: nat, to: array<byte>, toPtr: nat, len: nat) returns (end: nat)
    requires fromPtr + len <= |from| && toPtr + len <= to.Length
    modifies to
    ensures end == toPtr + len && to[..end] == old(to[..toPtr]) + from[fromPtr..fromPtr + len]
  {
    end := toPtr;
    for i := 0 to len
      invariant end == toPtr + i && to[..end] == old(to[..toPtr]) + from[fromPtr..fromPtr + i]
    {
      to[end] := from[fromPtr + i];
      end := end + 1;
    }
  }

  /** pico_dhcp_option_add_hook. `opts` are the options the bytes hold; the caller's buffer has
      room for what is added, which the hook asserts for one option 55. */
  method AddHook(options: array<byte>, origLen: nat, isRequest: bool, ghost opts: seq<Opt>) returns (newLen: nat)
    requires WellFormed(opts) && origLen <= options.Length && options[..origLen] == Encode(opts)
    requires |AllRewritten(opts)| <= options.Length
    modifies options
    ensures !isRequest ==> newLen == origLen && unchanged(options)
    ensures isRequest ==> newLen == origLen + 2 * Requests(opts) <= options.Length && options[..newLen] == AllRewritten(opts)
    // what they read as then: the same options, each 55 with 7 and 100 at its end, if no 55 is too long
    ensures isRequest && (forall i :: 0 <= i < |opts| && opts[i].code == 55 ==> |opts[i].data| <= 253) ==>
              var now := Decode(options[..newLen]);
              && now.Options? && |now.opts| == |opts|
              && forall i :: 0 <= i < |opts| ==>
                   && now.opts[i].code == opts[i].code
                   && now.opts[i].data == opts[i].data + if opts[i].code == 55 then [7, 100] else []
  {
    newLen := RewriteAll(options, origLen, isRequest, opts);
    if isRequest {
      RewrittenReads(opts);
      ExtendedInWords(opts);
    }
  }

  /** 55 gets two parameters more, its length in eight bits; any other option is copied. */
  lemma RewrittenInWords(o: Opt)
    requires |o.data| <= 255
    ensures AllRewritten([o]) == if o.code == 55 then [55, (|o.data| + 2) % 256] + o.data + [7, 100] else [o.code, |o.data|] + o.data
  {
    assert AllRewritten([o][1..]) == [];
    assert Rewritten(o) + [] == Rewritten(o);
  }

  lemma ExtendedInWords(opts: seq<Opt>)
    ensures |AllExtended(opts)| == |opts|
    ensures forall i :: 0 <= i < |opts| ==>
              && AllExtended(opts)[i].code == opts[i].code
              && AllExtended(opts)[i].data == opts[i].data + if opts[i].code == 55 then [7, 100] else []
  {
  }

  /** The hook but for what its bytes read as. */
  method RewriteAll(options: array<byte>, origLen: nat, isRequest: bool, ghost opts: seq<Opt>) returns (newLen: nat)
    requires WellFormed(opts) && origLen <= options.Length && options[..origLen] == Encode(opts)
    requires |AllRewritten(opts)| <= options.Length
    modifies options
    ensures !isRequest ==> newLen == origLen && unchanged(options)
    ensures isRequest ==> newLen == origLen + 2 * Requests(opts) <= options.Length && options[..newLen] == AllRewritten(opts)
  {
    if !isRequest {
      return origLen;
    }
    var tmp := options[..];
    var oldPtr := 0;
    newLen := 0;
    ghost var k := 0;
    assert opts[0..] == opts && opts[..0] == [];
    while oldPtr < origLen
      invariant oldPtr <= origLen && newLen <= options.Length
      invariant Rewriting(tmp[oldPtr..origLen], options[..newLen], options.Length, opts, k)
      decreases origLen - oldPtr
    {
      oldPtr, newLen := RewriteNext(tmp, oldPtr, origLen, options, newLen, opts, k);
      k := k + 1;
    }
    NoMoreOptions(opts, k);
    RewrittenLength(opts);
  }

  /** Where the hook's loop stands before option k. */
  ghost predicate Rewriting(rest: seq<byte>, written: seq<byte>, room: nat, opts: seq<Opt>, k: nat) {
    && WellFormed(opts) && k <= |opts|
    && rest == Encode(opts[k..])
    && written == AllRewritten(opts[..k])
    && |written| + |AllRewritten(opts[k..])| <= room
  }

  method RewriteNext(tmp: seq<byte>, oldPtr0: nat, origLen: nat, options: array<byte>, newPtr0: nat, ghost opts: seq<Opt>, ghost k: nat)
      returns (oldPtr: nat, newPtr: nat)
    requires oldPtr0 < origLen <= |tmp| && newPtr0 <= options.Length
    requires Rewriting(tmp[oldPtr0..origLen], options[..newPtr0], options.Length, opts, k)
    modifies options
    ensures oldPtr0 < oldPtr <= origLen && newPtr <= options.Length
    ensures Rewriting(tmp[oldPtr..origLen], options[..newPtr], options.Length, opts, k + 1)
  {
    ghost var written := options[..newPtr0];
    OptionAt(tmp, oldPtr0, origLen, opts, k);
    oldPtr, newPtr := RewriteOption(tmp, oldPtr0, options, newPtr0, opts[k]);
    RewritingMoves(tmp[oldPtr..origLen], written, options[..newPtr], options.Length, opts, k);
  }

  lemma RewritingMoves(rest: seq<byte>, written: seq<byte>, written': seq<byte>, room: nat, opts: seq<Opt>, k: nat)
    requires WellFormed(opts) && k < |opts| && rest == Encode(opts[k + 1..])
    requires written == AllRewritten(opts[..k]) && written' == written + Rewritten(opts[k])
    requires |written| + |AllRewritten(opts[k..])| <= room
    requires AllRewritten(opts[k..]) == Rewritten(opts[k]) + AllRewritten(opts[k + 1..])
    requires AllRewritten(opts[..k + 1]) == AllRewritten(opts[..k]) + Rewritten(opts[k])
    ensures Rewriting(rest, written', room, opts, k + 1)
  {
  }

  method PutTwo(to: array<byte>, ptr: nat, a: byte, b: byte)
    requires ptr + 2 <= to.Length
    modifies to
    ensures to[..ptr + 2] == old(to[..ptr]) + [a, b]
  {
    to[ptr] := a;
    to[ptr + 1] := b;
  }

  /** The body of the hook's loop, for option o. */
  method RewriteOption(tmp: seq<byte>, oldPtr0: nat, options: array<byte>, newPtr0: nat, ghost o: Opt) returns (oldPtr: nat, newPtr: nat)
    requires |o.data| <= 255 && oldPtr0 + 2 + |o.data| <= |tmp| && newPtr0 + |Rewritten(o)| <= options.Length
    requires tmp[oldPtr0] == o.code && tmp[oldPtr0 + 1] == |o.data| && tmp[oldPtr0 + 2..oldPtr0 + 2 + |o.data|] == o.data
    modifies options
    ensures oldPtr == oldPtr0 + 2 + |o.data| && newPtr == newPtr0 + |Rewritten(o)|
    ensures options[..newPtr] == old(options[..newPtr0]) + Rewritten(o)
  {
    oldPtr, newPtr := oldPtr0, newPtr0;
    var code := tmp[oldPtr];
    var len := tmp[oldPtr + 1];
    oldPtr := oldPtr + 2;
    var newLen := if code == PARAMETER_REQUEST then (len as int + |NEW_PARAMETERS|) % 256 else len;
    PutTwo(options, newPtr, code, newLen);
    newPtr := newPtr + 2;
    newPtr := CopyBytes(tmp, oldPtr, options, newPtr, len);
    oldPtr := oldPtr + len;
    if code == PARAMETER_REQUEST {
      newPtr := CopyBytes(NEW_PARAMETERS, 0, options, newPtr, |NEW_PARAMETERS|);
      assert NEW_PARAMETERS[0..|NEW_PARAMETERS|] == NEW_PARAMETERS;
    }
    InOnePiece(old(options[..newPtr0]), [code, newLen], o.data, NEW_PARAMETERS);
  }

  lemma InOnePiece(a: seq<byte>, b: seq<byte>, c: seq<byte>, d: seq<byte>)
    ensures (a + b) + c == a + (b + c)
    ensures ((a + b) + c) + d == a + (b + c + d)
  {
  }

  lemma DropOfSlice<T>(s: seq<T>, from: nat, to: nat, n: nat)
    requires from + n <= to <= |s|
    ensures s[from..to][n..] == s[from + n..to]
  {
  }

  lemma PartOfSlice<T>(s: seq<T>, from: nat, to: nat, i: nat, j: nat)
    requires i <= j && from + j <= to <= |s|
    ensures s[from..to][i..j] == s[from + i..from + j]
  {
    var part := s[from..to][i..j];
    forall k | 0 <= k < |part| ensures part[k] == s[from + i..from + j][k] {
      assert part[k] == s[from + i + k];
    }
  }

  /** The next option of the copy, and what is left after it. */
  lemma OptionAt(tmp: seq<byte>, oldPtr: nat, origLen: nat, opts: seq<Opt>, k: nat)
    requires WellFormed(opts) && k <= |opts| && oldPtr < origLen <= |tmp| && tmp[oldPtr..origLen] == Encode(opts[k..])
    ensures k < |opts| && oldPtr + 2 + |opts[k].data| <= origLen
    ensures tmp[oldPtr] == opts[k].code && tmp[oldPtr + 1] == |opts[k].data|
    ensures tmp[oldPtr + 2..oldPtr + 2 + |opts[k].data|] == opts[k].data
    ensures tmp[oldPtr + 2 + |opts[k].data|..origLen] == Encode(opts[k + 1..])
    ensures AllRewritten(opts[k..]) == Rewritten(opts[k]) + AllRewritten(opts[k + 1..])
    ensures AllRewritten(opts[..k + 1]) == AllRewritten(opts[..k]) + Rewritten(opts[k])
  {
    NextOption(tmp[oldPtr..origLen], opts, k);
    DropOfSlice(tmp, oldPtr, origLen, 2 + |opts[k].data|);
    PartOfSlice(tmp, oldPtr, origLen, 2, 2 + |opts[k].data|);
  }

  lemma NoMoreOptions(opts: seq<Opt>, k: nat)
    requires WellFormed(opts) && k <= |opts| && Encode(opts[k..]) == []
    ensures k == |opts| && opts[..k] == opts
  {
    EncodeEmpty(opts[k..]);
  }

  lemma EncodeEmpty(opts: seq<Opt>)
    requires forall i :: 0 <= i < |opts| ==> |opts[i].data| <= 255
    ensures opts != [] ==> |Encode(opts)| >= 2
  {
  }

  lemma NextOption(bytes: seq<byte>, opts: seq<Opt>, k: nat)
    requires WellFormed(opts) && k <= |opts| && bytes == Encode(opts[k..]) && bytes != []
    ensures k < |opts| && |bytes| >= 2 + |opts[k].data|
    ensures bytes[0] == opts[k].code && bytes[1] == |opts[k].data| && bytes[2..2 + |opts[k].data|] == opts[k].data
    ensures bytes[2 + |opts[k].data|..] == Encode(opts[k + 1..])
    ensures AllRewritten(opts[k..]) == Rewritten(opts[k]) + AllRewritten(opts[k + 1..])
    ensures AllRewritten(opts[..k + 1]) == AllRewritten(opts[..k]) + Rewritten(opts[k])
  {
    assert opts[k..][1..] == opts[k + 1..];
    assert opts[..k + 1] == opts[..k] + [opts[k]];
    RewrittenSnoc(opts[..k], opts[k]);
  }

  // ---- what a reader of the rewritten bytes finds ----

  lemma {:induction false} RewrittenIsEncoded(opts: seq<Opt>)
    requires WellFormed(opts)
    requires forall i :: 0 <= i < |opts| && opts[i].code == PARAMETER_REQUEST ==> |opts[i].data| <= 253
    ensures forall i :: 0 <= i < |opts| ==> |AllExtended(opts)[i].data| <= 255
    ensures AllRewritten(opts) == Encode(AllExtended(opts))
  {
    if opts != [] {
      RewrittenIsEncoded(opts[1..]);
      ExtendedApart(opts);
      assert opts[0] in opts;
      OneEncoded(opts[0], AllExtended(opts));
    }
  }

  lemma ExtendedApart(opts: seq<Opt>)
    requires opts != []
    ensures AllExtended(opts)[0] == Extended(opts[0]) && AllExtended(opts)[1..] == AllExtended(opts[1..])
  {
  }

  lemma OneEncoded(o: Opt, exts: seq<Opt>)
    requires exts != [] && exts[0] == Extended(o) && |o.data| <= if o.code == PARAMETER_REQUEST then 253 else 255
    requires forall i :: 0 <= i < |exts[1..]| ==> |exts[1..][i].data| <= 255
    ensures forall i :: 0 <= i < |exts| ==> |exts[i].data| <= 255
    ensures Encode(exts) == Rewritten(o) + Encode(exts[1..])
  {
    forall i | 0 <= i < |exts|
      ensures |exts[i].data| <= 255
    {
      assert i > 0 ==> exts[i] == exts[1..][i - 1];
    }
    RewrittenOne(o);
  }

  /** What the hook writes for one option is the encoding of the extended one. */
  lemma RewrittenOne(o: Opt)
    requires |o.data| <= if o.code == PARAMETER_REQUEST then 253 else 255
    ensures var e := Extended(o); |e.data| <= 255 && Rewritten(o) == [e.code, |e.data|] + e.data
  {
    TwoPieces([o.code, (|o.data| + 2) % 256], o.data, NEW_PARAMETERS);
  }

  lemma TwoPieces(a: seq<byte>, b: seq<byte>, c: seq<byte>)
    ensures a + b + c == a + (b + c)
  {
  }

  lemma {:induction false} DecodedIsShort(bytes: seq<byte>)
    ensures Decode(bytes).Options? ==> forall i :: 0 <= i < |Decode(bytes).opts| ==> |Decode(bytes).opts[i].data| <= 255
    decreases |bytes|
  {
    if |bytes| >= 2 && |bytes| >= 2 + bytes[1] as int {
      DecodedIsShort(bytes[2 + bytes[1] as int..]);
    }
  }

  /** The rewritten bytes read as the same options in the same order, every option 55 extended
      by the two parameters, exactly when no option 55 is longer than 253 bytes. */
  lemma RewrittenReads(opts: seq<Opt>)
    requires WellFormed(opts)
    ensures Decode(AllRewritten(opts)) == Options(AllExtended(opts))
            <==> forall i :: 0 <= i < |opts| && opts[i].code == PARAMETER_REQUEST ==> |opts[i].data| <= 253
  {
    if forall i :: 0 <= i < |opts| && opts[i].code == PARAMETER_REQUEST ==> |opts[i].data| <= 253 {
      RewrittenIsEncoded(opts);
      DecodeEncode(AllExtended(opts));
    } else {
      var i :| 0 <= i < |opts| && opts[i].code == PARAMETER_REQUEST && |opts[i].data| > 253;
      DecodedIsShort(AllRewritten(opts));
      assert |AllExtended(opts)[i].data| > 255;
    }
  }
}
