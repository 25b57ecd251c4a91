/** The IPv4 header checksum as both raw-socket programs compute it (sections 1 and 2 of
    RFC 1071), on hosts of either byte order. */
module UdpChecksum {

  type Byte = x: int | 0 <= x < 0x100
  type Word = x: int | 0 <= x < 0x1_0000
  newtype uint32 = x: int | 0 <= x < 0x1_0000_0000

  datatype ByteOrder = LittleEndian | BigEndian

  // ----- 16-bit words in memory

  /** A uint16_t read from two bytes of memory. */
  function Load(order: ByteOrder, b0: Byte, b1: Byte): Word {
    if order == BigEndian then b0 * 0x100 + b1 else b1 * 0x100 + b0
  }

  /** The bytes a uint16_t is stored as. */
  function Store(order: ByteOrder, w: Word): (Byte, Byte) {
    if order == BigEndian then (w / 0x100, w % 0x100) else (w % 0x100, w / 0x100)
  }

  /** ntohs, which is htons too. */
  function Ntohs(order: ByteOrder, w: Word): Word {
    if order == BigEndian then w else (w % 0x100) * 0x100 + w / 0x100
  }

  /** The network-order value of two bytes. */
  function Net(b0: Byte, b1: Byte): Word { b0 * 0x100 + b1 }

  /** The network-order bytes of a word. */
  function NetBytes(w: Word): seq<Byte> { [w / 0x100, w % 0x100] }

  lemma NtohsOfLoad(order: ByteOrder, b0: Byte, b1: Byte)
    ensures Ntohs(order, Load(order, b0, b1)) == Net(b0, b1)
  {
  }

  lemma SplitWord(hi: Byte, lo: Byte)
    ensures (hi * 0x100 + lo) / 0x100 == hi && (hi * 0x100 + lo) % 0x100 == lo
  {
  }

  lemma StoreOfHtons(order: ByteOrder, w: Word)
    ensures Store(order, Ntohs(order, w)) == (w / 0x100, w % 0x100)
    ensures Net(w / 0x100, w % 0x100) == w
  {
    SplitWord(w % 0x100, w / 0x100);
  }

  // ----- one's complement sums

  function Sum(words: seq<Word>): nat {
    if words == [] then 0 else Sum(words[..|words| - 1]) + words[|words| - 1]
  }

  /** Adding the carries back in until 16 bits are left. */
  function Fold(sum: nat): Word {
    if sum < 0x1_0000 then sum else Fold(sum % 0x1_0000 + sum / 0x1_0000)
  }

  function Complement(w: Word): Word { 0xFFFF - w }

  /** The words of the first 2n bytes of a header, in network order. */
  function Words(h: seq<Byte>, n: nat): (ws: seq<Word>)
    requires 2 * n <= |h|
    ensures |ws| == n
  {
    seq(n, i requires 0 <= i < n => Net(h[2 * i], h[2 * i + 1]))
  }

  /** What RFC 1071 prescribes for a twenty-byte header whose checksum field is zero. */
  function Checksum(h: seq<Byte>): Word
    requires |h| == 20
  {
    Complement(Fold(Sum(Words(h, 10))))
  }

  /** A header is intact when its words, the checksum among them, sum to all ones. */
  predicate Intact(h: seq<Byte>)
    requires |h| == 20
  {
    Fold(Sum(Words(h, 10))) == 0xFFFF
  }

  /** Folding keeps the residue modulo 0xFFFF, and only zero folds to zero. */
  lemma {:induction false} FoldResidue(sum: nat)
    ensures Fold(sum) % 0xFFFF == sum % 0xFFFF
    ensures Fold(sum) == 0 <==> sum == 0
  {
    if sum >= 0x1_0000 {
      var hi := sum / 0x1_0000;
      FoldResidue(sum % 0x1_0000 + hi);
      assert sum == (sum % 0x1_0000 + hi) + hi * 0xFFFF;
      ResidueOfMultiple(sum % 0x1_0000 + hi, hi);
    }
  }

  lemma {:induction false} ResidueOfMultiple(a: nat, k: nat)
    ensures (a + k * 0xFFFF) % 0xFFFF == a % 0xFFFF
  {
    if k > 0 {
      ResidueOfMultiple(a, k - 1);
    }
  }

  /** Exactly the sums that are positive multiples of 0xFFFF fold to all ones. */
  lemma FoldsToOnes(sum: nat)
    ensures Fold(sum) == 0xFFFF <==> sum > 0 && sum % 0xFFFF == 0
  {
    FoldResidue(sum);
  }

  // ----- the checksum field

  function WithChecksum(h: seq<Byte>, check: Word): (r: seq<Byte>)
    requires |h| == 20
    ensures |r| == 20
  {
    h[10 := check / 0x100][11 := check % 0x100]
  }

  lemma {:induction false} SumAfterUpdate(words: seq<Word>, i: nat, w: Word)
    requires i < |words|
    ensures Sum(words[i := w]) == Sum(words) - words[i] + w
  {
    var n := |words| - 1;
    if i < n {
      assert words[i := w][..n] == words[..n][i := w];
      SumAfterUpdate(words[..n], i, w);
    } else {
      assert words[i := w][..n] == words[..n];
    }
  }

  lemma WordsWithChecksum(h: seq<Byte>, check: Word)
    requires |h| == 20
    ensures Words(WithChecksum(h, check), 10) == Words(h, 10)[5 := check]
  {
  }

  /** Storing the computed checksum makes the header intact. */
  lemma ChecksumMakesIntact(h: seq<Byte>)
    requires |h| == 20 && Net(h[10], h[11]) == 0
    ensures Intact(WithChecksum(h, Checksum(h)))
  {
    var words := Words(h, 10);
    var s := Sum(words);
    WordsWithChecksum(h, Checksum(h));
    SumAfterUpdate(words, 5, Checksum(h));
    FoldResidue(s);
    var total := s + Complement(Fold(s));
    ResidueCancels(s, Fold(s));
    FoldsToOnes(total);
  }

  lemma ResidueCancels(s: nat, f: Word)
    requires s % 0xFFFF == f % 0xFFFF && (f == 0 <==> s == 0)
    ensures (s + Complement(f)) % 0xFFFF == 0 && s + Complement(f) > 0
  {
    var q := s / 0xFFFF;
    assert s == q * 0xFFFF + s % 0xFFFF;
    if f == 0xFFFF {
      assert s % 0xFFFF == 0;
    } else {
      assert s + Complement(f) == 0 + (q + 1) * 0xFFFF;
      ResidueOfMultiple(0, q + 1);
    }
  }

  /** Changing one word of an intact header is noticed, except exactly when it turns 0 into
      0xFFFF, or 0xFFFF into 0 while another word is not zero. */
  lemma OneWordError(h: seq<Byte>, i: nat, w: Word)
    requires |h| == 20 && i < 10 && Intact(h) && w != Words(h, 10)[i]
    ensures var words := Words(h, 10);
            Fold(Sum(words[i := w])) == 0xFFFF <==>
            (words[i] == 0 && w == 0xFFFF) || (words[i] == 0xFFFF && w == 0 && Sum(words) > 0xFFFF)
  {
    var words := Words(h, 10);
    var s, s' := Sum(words), Sum(words[i := w]);
    SumAfterUpdate(words, i, w);
    FoldsToOnes(s);
    FoldsToOnes(s');
    MultiplesApart(s, s');
  }

  lemma MultiplesApart(s: nat, s': nat)
    requires s % 0xFFFF == 0 && s != s' && -0xFFFF <= s' as int - s <= 0xFFFF
    ensures s' % 0xFFFF == 0 <==> s' == s + 0xFFFF || s == s' + 0xFFFF
  {
    var q, q' := s / 0xFFFF, s' / 0xFFFF;
    assert s == q * 0xFFFF && s' == q' * 0xFFFF + s' % 0xFFFF;
  }

  // ----- the loop

  /** `ip_checksum` on ten words; `stored` are the bytes that assigning its result to a
      uint16_t field writes. The folding loop runs at most twice, nothing overflows 32 bits,
      and the bytes written do not depend on the byte order of the host. */
  method IpChecksum(header: seq<Byte>, order: ByteOrder) returns (check: Word, stored: seq<Byte>, ghost rounds: nat)
    requires |header| == 20
    ensures check == Ntohs(order, Checksum(header))
    ensures stored == NetBytes(Checksum(header))
    ensures rounds <= 2
  {
    var sum: uint32 := 0;
    for i := 0 to 10
      invariant sum as int == Sum(Words(header, 10)[..i]) <= i * 0xFFFF
    {
      assert Words(header, 10)[..i + 1][..i] == Words(header, 10)[..i];
      sum := sum + Ntohs(order, Load(order, header[2 * i], header[2 * i + 1])) as uint32;
    }
    assert Words(header, 10)[..10] == Words(header, 10);
    rounds := 0;
    while sum / 0x1_0000 != 0
      invariant Fold(sum as int) == Fold(Sum(Words(header, 10)))
      invariant rounds == 0 ==> sum as int <= 10 * 0xFFFF
      invariant rounds == 1 ==> sum as int <= 0xFFFF + 9
      invariant rounds == 2 ==> sum as int <= 0xFFFF
      invariant rounds <= 2
      decreases 2 - rounds
    {
      sum := sum % 0x1_0000 + sum / 0x1_0000;
      rounds := rounds + 1;
    }
    check := Ntohs(order, Complement(sum as int));
    var (b0, b1) := Store(order, check);
    stored := [b0, b1];
    StoreOfHtons(order, Complement(sum as int));
  }
}
