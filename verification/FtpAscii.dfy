/** ASCII type transfers of ftp/ftp.c and ftpd/ftpd.c (section 3.1.1.1 of RFC 959), and restart and
    SIZE arithmetic on the encoded length (sections 4 and 5 of RFC 3659). */
module FtpAscii {
  import opened Common

  type Byte = b: int | 0 <= b < 256
  type Bytes = seq<Byte>

  const NUL: Byte := 0
  const LF: Byte := 10
  const CR: Byte := 13
  const EOF: int := -1

  // ---------------------------------------------------------------- Encoding

  /** The form on the wire: every linefeed behind a carriage return. */
  function Encode(x: Bytes): Bytes {
    if x == [] then [] else (if x[0] == LF then [CR, LF] else [x[0]]) + Encode(x[1..])
  }

  lemma {:induction false} EncodeConcat(a: Bytes, b: Bytes)
    ensures Encode(a + b) == Encode(a) + Encode(b)
    decreases |a|
  {
    if a == [] {
      assert a + b == b;
    } else {
      assert (a + b)[1..] == a[1..] + b;
      EncodeConcat(a[1..], b);
    }
  }

  lemma EncodeSnoc(x: Bytes, i: nat)
    requires i < |x|
    ensures Encode(x[..i + 1]) == Encode(x[..i]) + if x[i] == LF then [CR, LF] else [x[i]]
  {
    assert x[..i + 1] == x[..i] + [x[i]];
    EncodeConcat(x[..i], [x[i]]);
    assert [x[i]][1..] == [];
  }

  /** The server's send_data, through stdio; byte_count counts what is read. */
  method SendData(instr: Bytes) returns (outstr: Bytes, byteCount: nat)
    ensures outstr == Encode(instr) && byteCount == |instr|
  {
    outstr, byteCount := [], 0;
    for i := 0 to |instr|
      invariant outstr == Encode(instr[..i]) && byteCount == i
    {
      EncodeSnoc(instr, i);
      var c := instr[i];
      byteCount := byteCount + 1;
      if c == LF {
        outstr := outstr + [CR];
      }
      outstr := outstr + [c];
    }
    assert instr[..|instr|] == instr;
  }

  /** The client's sendrequest; bytes counts what is written. */
  method SendRequest(fin: Bytes) returns (dout: Bytes, bytes: nat)
    ensures dout == Encode(fin) && bytes == |dout|
  {
    dout, bytes := [], 0;
    for i := 0 to |fin|
      invariant dout == Encode(fin[..i]) && bytes == |dout|
    {
      EncodeSnoc(fin, i);
      var c := fin[i];
      if c == LF {
        dout := dout + [CR];
        bytes := bytes + 1;
      }
      dout := dout + [c];
      bytes := bytes + 1;
    }
    assert fin[..|fin|] == fin;
  }

  // ---------------------------------------------------------------- Decoding

  /** What is stored for bytes off the wire: CR LF becomes LF unless carriage returns are kept, and
      the NUL of a CR NUL is dropped. */
  function Decode(y: Bytes, keepCr: bool): Bytes {
    if y == [] then []
    else if y[0] != CR then [y[0]] + Decode(y[1..], keepCr)
    else if |y| == 1 then [CR]
    else if y[1] == LF then (if keepCr then [CR, LF] else [LF]) + Decode(y[2..], keepCr)
    else if y[1] == NUL then [CR] + Decode(y[2..], keepCr)
    else [CR] + Decode(y[1..], keepCr)
  }

  /** The linefeeds that are not behind a carriage return. */
  function BareLfs(y: Bytes): nat {
    if y == [] then 0
    else if y[0] == LF then 1 + BareLfs(y[1..])
    else if y[0] == CR && |y| > 1 && (y[1] == LF || y[1] == NUL) then BareLfs(y[2..])
    else BareLfs(y[1..])
  }

  // getc: the byte at i, or EOF
  function Get(y: Bytes, i: nat): int {
    if i < |y| then y[i] else EOF
  }

  // What is left to store when the decoder holds c and y is left to read, and the linefeeds to count.
  function Rest(c: Byte, y: Bytes, keepCr: bool): Bytes {
    Decode([c] + y, keepCr)
  }

  function RestLfs(c: Byte, y: Bytes): nat {
    if c == CR then BareLfs([CR] + y) else BareLfs(y)
  }

  /** The decoder holds c: a carriage return is decided by the character behind it. */
  lemma HoldStep(c: Byte, y: Bytes, keepCr: bool)
    ensures c != CR ==> Rest(c, y, keepCr) == [c] + Decode(y, keepCr) && RestLfs(c, y) == BareLfs(y)
    ensures c == CR && y == [] ==> Rest(c, y, keepCr) == [CR] && RestLfs(c, y) == 0
    ensures c == CR && y != [] && y[0] == NUL ==>
              Rest(c, y, keepCr) == [CR] + Decode(y[1..], keepCr) && RestLfs(c, y) == BareLfs(y[1..])
    ensures c == CR && y != [] && y[0] != NUL ==>
              && Rest(c, y, keepCr) == (if y[0] == LF && !keepCr then [] else [CR]) + Rest(y[0], y[1..], keepCr)
              && RestLfs(c, y) == RestLfs(y[0], y[1..])
  {
    var w := [c] + y;
    assert w[1..] == y;
    if c == CR {
      assert w == [CR] + y && BareLfs(w) == RestLfs(c, y);
      if y == [] {
        assert BareLfs(w[1..]) == 0;
      } else {
        assert w[2..] == y[1..] && y == [y[0]] + y[1..];
        if y[0] != NUL && y[0] != LF {
          assert BareLfs(w) == BareLfs(w[1..]) == BareLfs(y);
          assert RestLfs(y[0], y[1..]) == BareLfs(y);
        }
      }
    }
  }

  /** The client's recvrequest; carriage returns are kept with tcrflag; bytes counts what arrives. */
  method RecvRequest(din: Bytes, tcrflag: bool) returns (fout: Bytes, bytes: nat, bareLfs: nat)
    ensures fout == Decode(din, tcrflag) && bytes == |din| && bareLfs == BareLfs(din)
  {
    hide Decode, BareLfs, Rest, RestLfs;
    fout, bytes, bareLfs := [], 0, 0;
    var i := 0;
    assert din[0..] == din;
    Empty(tcrflag);
    while i < |din|
      invariant i <= |din| && bytes == i
      invariant fout + Decode(din[i..], tcrflag) == Decode(din, tcrflag)
      invariant bareLfs + BareLfs(din[i..]) == BareLfs(din)
    {
      var c: int := din[i];
      HeadStep(din, i, tcrflag);
      i := i + 1;
      if c == LF {
        bareLfs := bareLfs + 1;
      }
      var stored := false;
      while c == CR && !stored
        invariant i <= |din| && bytes == (if stored then i else i - 1)
        invariant !stored ==> 0 <= c < 256
        invariant !stored ==> fout + Rest(c, din[i..], tcrflag) == Decode(din, tcrflag)
        invariant !stored ==> bareLfs + RestLfs(c, din[i..]) == BareLfs(din)
        invariant stored ==> fout + Decode(din[i..], tcrflag) == Decode(din, tcrflag)
        invariant stored ==> bareLfs + BareLfs(din[i..]) == BareLfs(din)
        decreases |din| - i, !stored
      {
        HoldStep(c, din[i..], tcrflag);
        assert i < |din| ==> din[i..][0] == din[i] && din[i..][1..] == din[i + 1..];
        bytes := bytes + 1;
        c := Get(din, i);
        if c != EOF {
          i := i + 1;
        }
        if c != LF || tcrflag {
          stored := c == NUL || c == EOF;
          Regroup(fout, [CR], if stored then Decode(din[i..], tcrflag) else Rest(c, din[i..], tcrflag));
          fout := fout + [CR];
          if c == NUL {
            bytes := bytes + 1;
          }
        }
      }
      if !stored {
        HoldStep(c, din[i..], tcrflag);
        Regroup(fout, [c], Decode(din[i..], tcrflag));
        fout := fout + [c];
        bytes := bytes + 1;
      }
    }
    assert din[i..] == [];
  }

  lemma Empty(keepCr: bool)
    ensures Decode([], keepCr) == [] && BareLfs([]) == 0
  {
  }

  /** At the head of the loop a linefeed counts as bare. */
  lemma HeadStep(y: Bytes, i: nat, keepCr: bool)
    requires i < |y|
    ensures Decode(y[i..], keepCr) == Rest(y[i], y[i + 1..], keepCr)
    ensures BareLfs(y[i..]) == (if y[i] == LF then 1 else 0) + RestLfs(y[i], y[i + 1..])
  {
    assert y[i..] == [y[i]] + y[i + 1..];
    assert y[i..][1..] == y[i + 1..];
  }

  /** The server's receive_data. */
  method ReceiveData(instr: Bytes) returns (outstr: Bytes, bareLfs: nat)
    ensures outstr == Decode(instr, false) && bareLfs == BareLfs(instr)
  {
    hide Decode, BareLfs, Rest, RestLfs;
    outstr, bareLfs := [], 0;
    var i := 0;
    assert instr[0..] == instr;
    Empty(false);
    while i < |instr|
      invariant i <= |instr|
      invariant outstr + Decode(instr[i..], false) == Decode(instr, false)
      invariant bareLfs + BareLfs(instr[i..]) == BareLfs(instr)
    {
      var c: int := instr[i];
      HeadStep(instr, i, false);
      i := i + 1;
      if c == LF {
        bareLfs := bareLfs + 1;
      }
      var stored := false;
      while c == CR && !stored
        invariant i <= |instr|
        invariant !stored ==> 0 <= c < 256
        invariant !stored ==> outstr + Rest(c, instr[i..], false) == Decode(instr, false)
        invariant !stored ==> bareLfs + RestLfs(c, instr[i..]) == BareLfs(instr)
        invariant stored ==> outstr + Decode(instr[i..], false) == Decode(instr, false)
        invariant stored ==> bareLfs + BareLfs(instr[i..]) == BareLfs(instr)
        decreases |instr| - i, !stored
      {
        HoldStep(c, instr[i..], false);
        assert i < |instr| ==> instr[i..][0] == instr[i] && instr[i..][1..] == instr[i + 1..];
        c := Get(instr, i);
        if c != EOF {
          i := i + 1;
        }
        if c != LF {
          stored := c == NUL || c == EOF;
          Regroup(outstr, [CR], if stored then Decode(instr[i..], false) else Rest(c, instr[i..], false));
          outstr := outstr + [CR];
        }
      }
      if !stored {
        HoldStep(c, instr[i..], false);
        Regroup(outstr, [c], Decode(instr[i..], false));
        outstr := outstr + [c];
      }
    }
    assert instr[i..] == [];
  }

  // ---------------------------------------------------------------- The bytes at the first line end

  lemma {:induction false} EncodeAt(a: Bytes, b: Bytes)
    requires 10 !in a
    ensures Encode(a) == a && Encode(a + [10] + b) == a + [13, 10] + Encode(b)
    decreases |a|
  {
    if a == [] {
      assert ([] + [10] + b)[1..] == b;
    } else {
      assert (a + [10] + b)[1..] == a[1..] + [10] + b;
      EncodeAt(a[1..], b);
    }
  }

  lemma {:induction false} DecodeText(a: Bytes, w: Bytes, keepCr: bool)
    requires 13 !in a
    ensures Decode(a + w, keepCr) == a + Decode(w, keepCr)
    decreases |a|
  {
    if a == [] {
      assert a + w == w;
    } else {
      assert (a + w)[1..] == a[1..] + w;
      DecodeText(a[1..], w, keepCr);
    }
  }

  /** Behind text without carriage returns: a CR LF is stored as LF, or as it is, a CR NUL as CR, and
      before any other byte, or at the end, a CR stays. */
  lemma DecodeAt(a: Bytes, b: Bytes, keepCr: bool)
    requires 13 !in a
    ensures Decode(a + ([13, 10] + b), keepCr) == a + ((if keepCr then [13, 10] else [10]) + Decode(b, keepCr))
    ensures Decode(a + ([13, 0] + b), keepCr) == a + ([13] + Decode(b, keepCr))
    ensures b != [] && b[0] != 10 && b[0] != 0 ==> Decode(a + ([13] + b), keepCr) == a + ([13] + Decode(b, keepCr))
    ensures Decode(a + [13], keepCr) == a + [13] && Decode([], keepCr) == []
  {
    DecodeText(a, [13, 10] + b, keepCr);
    DecodeText(a, [13, 0] + b, keepCr);
    DecodeText(a, [13] + b, keepCr);
    DecodeText(a, [13], keepCr);
    assert ([13, 10] + b)[2..] == b && ([13, 0] + b)[2..] == b && ([13] + b)[1..] == b;
  }

  /** A linefeed is bare unless a carriage return is directly in front of it. */
  lemma {:induction false} BareLfsAt(a: Bytes, b: Bytes)
    requires 13 !in a && 10 !in a
    ensures BareLfs(a) == 0 && BareLfs(a + [10] + b) == 1 + BareLfs(b)
    ensures BareLfs(a + [13, 10] + b) == BareLfs(a + [13, 0] + b) == BareLfs(b)
    decreases |a|
  {
    var lf, crLf, crNul := a + [10] + b, a + [13, 10] + b, a + [13, 0] + b;
    if a == [] {
      assert lf[1..] == b && crLf[2..] == b && crNul[2..] == b;
    } else {
      var tail := a[1..];
      assert lf[1..] == tail + [10] + b && crLf[1..] == tail + [13, 10] + b && crNul[1..] == tail + [13, 0] + b;
      BareLfsAt(tail, b);
    }
  }

  // ---------------------------------------------------------------- Round trips

  /** x without each NUL that stands directly behind a carriage return. */
  function DropNul(x: Bytes): Bytes {
    if x == [] then []
    else if x[0] == CR && |x| > 1 && x[1] == NUL then [CR] + DropNul(x[2..])
    else [x[0]] + DropNul(x[1..])
  }

  predicate HasCrNul(x: Bytes) {
    exists i :: 0 <= i < |x| - 1 && x[i] == CR && x[i + 1] == NUL
  }

  lemma {:induction false} DropNulIff(x: Bytes)
    ensures |DropNul(x)| <= |x|
    ensures HasCrNul(x) ==> |DropNul(x)| < |x|
    ensures !HasCrNul(x) ==> DropNul(x) == x
    decreases |x|
  {
    if x != [] {
      if x[0] == CR && |x| > 1 && x[1] == NUL {
        DropNulIff(x[2..]);
      } else {
        DropNulIff(x[1..]);
        if HasCrNul(x) {
          var i :| 0 <= i < |x| - 1 && x[i] == CR && x[i + 1] == NUL;
          assert x[1..][i - 1] == CR && x[1..][i] == NUL;
        }
      }
    }
  }

  /** Decoding what was encoded gives the file but for the NULs behind carriage returns, and no
      linefeed is bare. */
  lemma {:induction false} DecodeEncode(x: Bytes)
    ensures Decode(Encode(x), false) == DropNul(x) && BareLfs(Encode(x)) == 0
    decreases |x|
  {
    hide Decode, BareLfs;
    if x == [] {
      Empty(false);
    } else {
      var e, wire := Encode(x[1..]), Encode(x);
      assert wire[0..] == wire;
      HeadStep(wire, 0, false);
      DecodeEncode(x[1..]);
      if x[0] == LF {
        assert wire == [CR] + ([LF] + e) && ([LF] + e)[1..] == e && wire[1..] == [LF] + e;
        HoldStep(CR, [LF] + e, false);
        HoldStep(LF, e, false);
      } else {
        assert wire == [x[0]] + e && wire[1..] == e;
        HoldStep(x[0], e, false);
        if x[0] == CR && |x| > 1 {
          assert e[0] == if x[1] == LF then CR else x[1];
          assert e == [e[0]] + e[1..] && e[0..] == e;
          HeadStep(e, 0, false);
          if x[1] == NUL {
            assert x[1..][1..] == x[2..] && e[1..] == Encode(x[2..]);
            DecodeEncode(x[2..]);
          }
        }
      }
    }
  }

  /** An ASCII transfer, either way, rebuilds the file exactly when it has no CR NUL pair. */
  lemma TransferRebuilds(x: Bytes)
    ensures Decode(Encode(x), false) == x <==> !HasCrNul(x)
  {
    DecodeEncode(x);
    DropNulIff(x);
  }

  /** Conversely, what was received well-formed is sent on unchanged. */
  lemma {:induction false} EncodeDecode(y: Bytes)
    requires BareLfs(y) == 0 && !HasCrNul(y)
    ensures Encode(Decode(y, false)) == y
    decreases |y|
  {
    if y == [] {
    } else {
      var k := if y[0] == CR && |y| > 1 && y[1] == LF then 2 else 1;
      assert y[0] == CR && |y| > 1 ==> y[1] != NUL;
      forall i | 0 <= i < |y[k..]| - 1 ensures !(y[k..][i] == CR && y[k..][i + 1] == NUL) {
        assert y[k..][i] == y[k + i] && y[k..][i + 1] == y[k + i + 1];
      }
      EncodeDecode(y[k..]);
      assert Decode(y, false) == (if k == 2 then [LF] else [y[0]]) + Decode(y[k..], false);
      assert Decode(y, false)[1..] == Decode(y[k..], false);
    }
  }

  /** Server to client with carriage returns stripped, and client to server. */
  method RoundTrip(x: Bytes) returns (downloaded: Bytes, uploaded: Bytes, bare: nat)
    ensures downloaded == uploaded == DropNul(x) && bare == 0
    ensures downloaded == x <==> !HasCrNul(x)
  {
    var wire, bytes := SendData(x);
    var bare1, bare2;
    downloaded, bytes, bare1 := RecvRequest(wire, false);
    wire, bytes := SendRequest(x);
    uploaded, bare2 := ReceiveData(wire);
    bare := bare1 + bare2;
    DecodeEncode(x);
    DropNulIff(x);
  }

  // ---------------------------------------------------------------- SIZE and restart

  /** sizecmd for type A: the size is that of the encoded file. */
  method SizeCmd(fin: Bytes) returns (count: nat)
    ensures count == |Encode(fin)|
  {
    count := 0;
    for i := 0 to |fin|
      invariant count == |Encode(fin[..i])|
    {
      EncodeSnoc(fin, i);
      var c := fin[i];
      if c == LF {
        count := count + 1;
      }
      count := count + 1;
    }
    assert fin[..|fin|] == fin;
  }

  lemma EncodedGrows(x: Bytes, j: nat, k: nat)
    requires j < k <= |x|
    ensures |Encode(x[..j])| < |Encode(x[..k])|
  {
    assert x[..k] == x[..j] + x[j..k];
    EncodeConcat(x[..j], x[j..k]);
  }

  // The first position of x whose prefix is n bytes on the wire, or more.
  ghost predicate StopsAt(x: Bytes, n: int, k: nat) {
    && k <= |x| && n <= |Encode(x[..k])|
    && forall j :: 0 <= j < k ==> |Encode(x[..j])| < n
  }

  /** The skip loop of retrieve in the server and of recvrequest in the client: it stops at the least
      position whose prefix is at least n bytes on the wire, or fails when there is none. */
  method SkipTo(fin: Bytes, n: int) returns (ok: bool, k: nat)
    ensures ok <==> n <= |Encode(fin)|
    ensures ok ==> StopsAt(fin, n, k)
  {
    hide Encode;
    k := 0;
    var i := 0;
    EncodeNone(fin);
    while i < n
      invariant k <= |fin| && i == |Encode(fin[..k])|
      invariant forall j :: 0 <= j < k ==> |Encode(fin[..j])| < n
      decreases |fin| - k
    {
      i := i + 1;
      var c := Get(fin, k);
      if c == EOF {
        assert fin[..k] == fin;
        return false, k;
      }
      EncodeSnoc(fin, k);
      k := k + 1;
      if c == LF {
        i := i + 1;
      }
    }
    ok := true;
    if k < |fin| {
      EncodedGrows(fin, k, |fin|);
    }
    assert fin[..|fin|] == fin;
  }

  lemma EncodeNone(x: Bytes)
    ensures Encode(x[..0]) == []
  {
  }

  /** An offset that is the encoded length of a prefix leads back to the end of that prefix, in the
      file and in every longer part of it. */
  lemma StopsAtPrefix(x: Bytes, f: Bytes, k: nat, j: nat)
    requires k <= |f| && f <= x && StopsAt(f, |Encode(x[..k])|, j)
    ensures j == k
  {
    assert f[..k] == x[..k];
    if j < k {
      EncodedGrows(f, j, k);
    }
  }

  lemma SuffixWithoutCrNul(x: Bytes, k: nat)
    requires k <= |x| && !HasCrNul(x)
    ensures !HasCrNul(x[k..])
  {
    forall i | 0 <= i < |x[k..]| - 1 ensures !(x[k..][i] == CR && x[k..][i + 1] == NUL) {
      assert x[k..][i] == x[k + i] && x[k..][i + 1] == x[k + i + 1];
    }
  }

  /** What is written from position k on replaces what was there. */
  function Overwrite(file: Bytes, k: nat, data: Bytes): Bytes
    requires k <= |file|
  {
    file[..k] + data + if k + |data| <= |file| then file[k + |data|..] else []
  }

  /** A resumed download: the client holds the part f of the file x, and asks for an offset that is
      the encoded length of x's first k bytes.  Server and client both stop at k, and the download
      rebuilds x. */
  method ResumeDownload(x: Bytes, f: Bytes, n: nat, ghost k: nat) returns (file: Bytes)
    requires f <= x && k <= |f| && n == |Encode(x[..k])| && !HasCrNul(x)
    ensures file == x
  {
    hide Encode, Decode;
    assert x[..|x|] == x && f[..k] == x[..k];
    assert f[..|f|] == f;
    EncodedAtMost(x, k);
    EncodedAtMost(f, k);
    var served, from := SkipTo(x, n);
    StopsAtPrefix(x, x, k, from);
    var kept, to := SkipTo(f, n);
    StopsAtPrefix(x, f, k, to);
    var wire, sent := SendData(x[from..]);
    var data, bytes, bare := RecvRequest(wire, false);
    SuffixWithoutCrNul(x, k);
    TransferRebuilds(x[k..]);
    file := Overwrite(f, to, data);
  }

  lemma EncodedAtMost(x: Bytes, k: nat)
    requires k <= |x|
    ensures |Encode(x[..k])| <= |Encode(x)|
  {
    assert x[..|x|] == x;
    if k < |x| {
      EncodedGrows(x, k, |x|);
    }
  }
}
