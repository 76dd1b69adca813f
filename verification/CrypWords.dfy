// Word accesses to byte buffers: blocks entered as four words, a last partial
// block entered as complete words, one masked word and zero words, and output
// words spliced into a buffer.
module CrypWords {
  import opened AesCore
  import opened CrypAuth

  // Words needed to hold n bytes.
  function Words(n: nat): nat {
    (n + 3) / 4
  }

  function Word(m: Bytes, j: nat): (w: Bytes)
    ensures |w| == 4
  {
    if 4 * j + 4 <= |m| then m[4 * j..4 * j + 4] else Zeros(4)
  }

  // A word masked to its r low bytes.
  function Masked(w: Bytes, r: nat): (v: Bytes)
    requires |w| == 4
    ensures |v| == 4
  {
    seq(4, i requires 0 <= i < 4 => if i < r then w[i] else 0)
  }

  // The core after the first j words of m.
  function EnterWords(c: Core, k: Key, m: Bytes, j: nat): Core {
    if j == 0 then c else Din(EnterWords(c, k, m, j - 1), k, Word(m, j - 1))
  }

  lemma EnterWordsAll(c: Core, k: Key, m: Bytes)
    requires |m| == 16
    ensures EnterWords(c, k, m, 4) == Enter(c, k, m)
  {
    hide Din;
    assert EnterWords(c, k, m, 1) == Din(c, k, m[..4]);
    assert EnterWords(c, k, m, 2) == Din(EnterWords(c, k, m, 1), k, m[4..8]);
    assert EnterWords(c, k, m, 3) == Din(EnterWords(c, k, m, 2), k, m[8..12]);
    assert EnterWords(c, k, m, 4) == Din(EnterWords(c, k, m, 3), k, m[12..16]);
  }

  // The words that padding n bytes of m to a block amounts to.
  lemma PadWord(m: Bytes, n: nat, j: nat)
    requires 0 < n < 16 && 4 * Words(n) <= |m| && j < 4
    ensures n <= |m|
    ensures j < n / 4 ==> Word(Pad(m[..n]), j) == Word(m, j)
    ensures j == n / 4 && n % 4 != 0 ==> Word(Pad(m[..n]), j) == Masked(Word(m, j), n % 4)
    ensures Words(n) <= j ==> Word(Pad(m[..n]), j) == Zeros(4)
  {
    var p := Pad(m[..n]);
    assert |p| == 16;
    forall i | 0 <= i < 16
      ensures p[i] == if i < n then m[i] else 0
    {
    }
    hide Pad;
    if j < n / 4 {
      assert p[4 * j..4 * j + 4] == m[4 * j..4 * j + 4];
    } else if j == n / 4 && n % 4 != 0 {
      assert Word(p, j) == Masked(Word(m, j), n % 4);
    }
  }

  function Splice(s: Bytes, p: nat, w: Bytes): (r: Bytes)
    ensures |r| == |s|
  {
    if p + |w| <= |s| then s[..p] + w + s[p + |w|..] else s
  }

  lemma SpliceNext(s: Bytes, p: nat, a: Bytes, b: Bytes)
    requires p + |a| + |b| <= |s|
    ensures Splice(Splice(s, p, a), p + |a|, b) == Splice(s, p, a + b)
  {
    var x := Splice(s, p, a);
    assert x[..p + |a|] == s[..p] + a && x[p + |a| + |b|..] == s[p + |a| + |b|..];
    assert s[..p] + a + b == s[..p] + (a + b);
  }

  lemma WordsJoin(m: Bytes)
    requires |m| == 16
    ensures Word(m, 0) + Word(m, 1) + Word(m, 2) + Word(m, 3) == m
  {
  }

  lemma BlockWords(m: Bytes, p: nat)
    requires p + 16 <= |m|
    ensures var b := m[p..p + 16];
            m[p..p + 4] == b[..4] && m[p + 4..p + 8] == b[4..8]
            && m[p + 8..p + 12] == b[8..12] && m[p + 12..p + 16] == b[12..16]
  {
    var b := m[p..p + 16];
    assert forall i :: 0 <= i < 16 ==> b[i] == m[p + i];
    assert m[p..p + 4] == b[..4];
    assert m[p + 4..p + 8] == b[4..8];
    assert m[p + 8..p + 12] == b[8..12];
    assert m[p + 12..p + 16] == b[12..16];
  }

  lemma DropWord(d: Bytes, j: nat)
    requires 4 * j + 4 <= |d|
    ensures d[4 * j..][..4] == Word(d, j) && d[4 * j..][4..] == d[4 * (j + 1)..]
    ensures d[..4 * j] + Word(d, j) == d[..4 * (j + 1)]
  {
  }

  // One word of a block replaced.
  lemma SpliceWord(m: Bytes, j: nat, w: Bytes, i: nat)
    requires |m| == 16 && |w| == 4 && j < 4 && i < 4
    ensures Word(Splice(m, 4 * j, w), i) == if i == j then w else Word(m, i)
  {
    var s := Splice(m, 4 * j, w);
    assert forall x :: 0 <= x < 16 ==> s[x] == if 4 * j <= x < 4 * j + 4 then w[x - 4 * j] else m[x];
  }

  // Two blocks with the same words are the same.
  lemma SameWords(a: Bytes, b: Bytes)
    requires |a| == 16 && |b| == 16
    requires forall j :: 0 <= j < 4 ==> Word(a, j) == Word(b, j)
    ensures a == b
  {
    WordsJoin(a);
    WordsJoin(b);
  }

  lemma SpliceNothing(s: Bytes, p: nat)
    ensures Splice(s, p, []) == s
  {
  }

  // What four reads of the output register give.
  function Output(c: Core): (b: Bytes)
    ensures |b| == 16
  {
    if |c.dout| == 16 then c.dout else Zeros(16)
  }

  // A block masked word by word is the padded block.
  lemma MaskedBlock(d: Bytes, n: nat, tmp: Bytes)
    requires |d| == 16 && 0 < n < 16 && |tmp| == 16
    requires forall j {:trigger Word(tmp, j)} | 0 <= j < 4 ::
      Word(tmp, j) == if j < Words(n) then Word(Pad(d[..n]), j) else Zeros(4)
    ensures tmp == Pad(d[..n])
  {
    hide Pad, Word;
    forall j | 0 <= j < 4
      ensures Word(tmp, j) == Word(Pad(d[..n]), j)
    {
      PadWord(d, n, j);
    }
    SameWords(tmp, Pad(d[..n]));
  }

  // Whole blocks and tail of the first n bytes of memory m.
  lemma WholePart(m: Bytes, n: nat)
    requires n <= |m|
    ensures WholeBlocks(m[..n]) == m[..16 * (n / 16)]
    ensures Tail(m[..n]) == m[16 * (n / 16)..16 * (n / 16) + n % 16]
    ensures n == 16 * (n / 16) + n % 16
    ensures n % 16 != 0 ==> Words(n) == 4 * (n / 16) + Words(n % 16)
    ensures n % 16 == 0 ==> Blocks(n) == n / 16 && Pad(m[..n]) == m[..n]
    ensures n % 16 != 0 ==> Blocks(n) == n / 16 + 1
  {
    if n % 16 == 0 {
      PadWhole(n / 16, m[..n]);
    }
  }

  // What the driver stores for output bytes b: b and zero bytes up to a whole
  // word.
  function Stored(b: Bytes): (r: Bytes)
    ensures |r| == 4 * Words(|b|)
  {
    b + Zeros(4 * Words(|b|) - |b|)
  }

  lemma StoredIsPad(b: Bytes)
    requires 0 < |b| < 16
    ensures Pad(b)[..4 * Words(|b|)] == Stored(b)
  {
  }

  lemma StoredAppend(n: nat, a: Bytes, b: Bytes)
    requires |a| == 16 * n
    ensures Stored(a + b) == a + Stored(b)
  {
    assert Words(|a| + |b|) == 4 * n + Words(|b|);
  }

  // The output of q whole blocks followed by the masked output of a tail of r
  // bytes.
  lemma StoredOutput(k: Key, dt: DataType, c: nat, s: Bytes, m: Bytes, q: nat, r: nat)
    requires r < 16 && 16 * q + r <= |m| && 16 * q + 4 * Words(r) <= |s|
    ensures var x := Splice(s, 0, Crypt(k, dt, c, m[..16 * q]));
            Splice(s, 0, Stored(Crypt(k, dt, c, m[..16 * q + r])))
            == if r == 0 then x
               else Splice(x, 16 * q, Pad(Crypt(k, dt, c + q, m[16 * q..16 * q + r]))[..4 * Words(r)])
  {
    hide Pad, Crypt, Splice, Stored, Words;
    if r == 0 {
      StoredWhole(q, Crypt(k, dt, c, m[..16 * q]));
    } else {
      StoredTail(k, dt, c, s, q, m[..16 * q], m[16 * q..16 * q + r]);
      assert m[..16 * q] + m[16 * q..16 * q + r] == m[..16 * q + r];
    }
  }

  lemma StoredWhole(n: nat, b: Bytes)
    requires |b| == 16 * n
    ensures Stored(b) == b
  {
    assert Words(16 * n) == 4 * n;
  }

  lemma StoredTail(k: Key, dt: DataType, c: nat, s: Bytes, q: nat, w: Bytes, t: Bytes)
    requires |w| == 16 * q && 0 < |t| < 16 && 16 * q + 4 * Words(|t|) <= |s|
    ensures Splice(s, 0, Stored(Crypt(k, dt, c, w + t)))
         == Splice(Splice(s, 0, Crypt(k, dt, c, w)), 16 * q, Pad(Crypt(k, dt, c + q, t))[..4 * Words(|t|)])
  {
    hide Crypt, Splice, Stored, Pad, Words;
    CryptAppend(k, dt, c, q, w, t);
    var x, y := Crypt(k, dt, c, w), Crypt(k, dt, c + q, t);
    StoredAppend(q, x, y);
    StoredIsPad(y);
    SpliceNext(s, 0, x, Stored(y));
  }

  lemma FourWords(a: Bytes, b: Bytes, c: Bytes, d: Bytes)
    requires |a| == |b| == |c| == |d| == 4
    ensures var m := a + b + c + d; m[..4] == a && m[4..8] == b && m[8..12] == c && m[12..16] == d
  {
  }

  // Block i of the padded first n bytes of memory m.
  lemma PadBlock(m: Bytes, n: nat, i: nat)
    requires n <= |m| && 16 * i < n
    ensures 16 * i + 16 <= |Pad(m[..n])|
    ensures Pad(m[..n])[16 * i..16 * i + 16] == if n - 16 * i >= 16 then m[16 * i..16 * i + 16] else Pad(m[16 * i..n])
    ensures Pad(m[..n])[..16 * i] + Pad(m[..n])[16 * i..16 * i + 16] == Pad(m[..n])[..16 * (i + 1)]
    ensures Pad(m[..n])[..16 * i] == m[..16 * i]
    ensures n - 16 * i <= 16 ==> |Pad(m[..n])| == 16 * (i + 1) && Blocks(n) == i + 1
    ensures n - 16 * i > 16 ==> Blocks(n) > i + 1
  {
    var p := Pad(m[..n]);
    if n - 16 * i < 16 {
      assert m[..n] == m[..16 * i] + m[16 * i..n];
      PadAppend(i, m[..16 * i], m[16 * i..n]);
    } else {
      assert forall j :: 0 <= j < n ==> p[j] == m[j];
    }
  }

  lemma SpliceStarts(s: Bytes, w: Bytes)
    requires |w| <= |s|
    ensures Splice(s, 0, w)[..|w|] == w
  {
  }

  lemma StoredStarts(s: Bytes, b: Bytes)
    requires 4 * Words(|b|) <= |s|
    ensures |b| <= 4 * Words(|b|) && Splice(s, 0, Stored(b))[..|b|] == b
  {
  }

  // What is read back from output buffer s and tag buffer t, swapped for the data
  // type: byte for byte, message m of whole units xored with the keystream blocks from
  // counter c on, and the tag bytes of what has been absorbed.
  predicate ReadBack(k: Key, dt: DataType, c: nat, m: Bytes, g: Bytes, s: Bytes, t: Bytes) {
    |m| <= |s| && 16 <= |t|
    && (forall i | 0 <= i < 16 :: Wire(dt, t[..16])[i] == k.tag(g, i))
    && (Aligned(dt, |m|) ==>
          forall i | 0 <= i < |m| :: Wire(dt, s[..|m|])[i] == Wire(dt, m)[i] ^ k.stream(c + i / 16, i % 16))
  }

  lemma AlignedBlock(dt: DataType)
    ensures Aligned(dt, 16)
  {
  }

  lemma OutputReads(k: Key, dt: DataType, c: nat, m: Bytes, g: Bytes, s: Bytes, t: Bytes)
    requires 4 * Words(|m|) <= |s| && 16 <= |t|
    ensures ReadBack(k, dt, c, m, g, Splice(s, 0, Stored(Crypt(k, dt, c, m))), Splice(t, 0, Wire(dt, Tag(k, g))))
  {
    hide Splice, Stored, Crypt, Wire, Aligned;
    SpliceStarts(t, Wire(dt, Tag(k, g)));
    AlignedBlock(dt);
    WireInvolutive(dt, Tag(k, g));
    StoredStarts(s, Crypt(k, dt, c, m));
    if Aligned(dt, |m|) {
      CryptIsGctr(k, dt, c, m);
    }
  }
}
