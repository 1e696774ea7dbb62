/** Decoding a symbol through a finished table: near the end of the input bytes are read one at a time,
    and only while the code at hand is not yet complete. */
module TableDecode {
  import opened Sums
  import opened Arith
  import opened Bits
  import opened BitOutput
  import opened DecodeTable
  import opened BlockCodec
  import opened BitInput

  // A table that decodes these words.
  ghost predicate Decodes(words: seq<Path>, at: map<Path, int>, lookUp: seq<int>, tree: seq<int>) {
    PrefixCode(words) && NodesFit(words) && Table(words, |words|, at, lookUp, tree)
  }

  // The accumulator's bits, zeros beyond them.
  ghost function Seen(bitBuf: nat, numBits: nat): (r: Path)
    ensures |r| == numBits + MAX_BITS
  {
    LsbBits(bitBuf, numBits + MAX_BITS)
  }

  // The walk stands at the node that the first l bits lead to.
  ghost predicate AtNode(at: map<Path, int>, bits: Path, l: nat, temp: int) {
    l <= |bits| && bits[..l] in at && at[bits[..l]] == temp
  }

  // The entry for ten bits: a symbol, nothing, or a node.
  lemma EntryKinds(words: seq<Path>, at: map<Path, int>, lookUp: seq<int>, tree: seq<int>, bits: Path)
    requires Decodes(words, at, lookUp, tree) && |bits| >= MAX_BITS
    ensures Value(bits[..FAST_BITS]) < FAST_SIZE
    ensures var e := lookUp[Value(bits[..FAST_BITS])];
      && (e < 0 ==> AtNode(at, bits, FAST_BITS, e))
      && (e >= 0 ==> 0 <= e / 512 <= FAST_BITS && 0 <= e % 512 && (e % 512 < |words| || e == 0))
  {
    hide LookUps, Slots, PathsMade, Closed, Blank, NodesFit;
    EntryFor(words, at, lookUp, bits);
    var x, e := bits[..FAST_BITS], lookUp[Value(bits[..FAST_BITS])];
    if x in at {
      assert e == at[x];
    } else if i :| 0 <= i < |words| && ShortMatch(words, i, x) {
      assert e == |words[i]| * 512 + i;
      EntryParts(i, |words[i]|);
    }
  }

  lemma NodeBounds(words: seq<Path>, at: map<Path, int>, s: Path)
    requires NodesFit(words) && Nodes(words, at) && s in at && PrefixCode(words)
    ensures at[s] < 0 && FAST_BITS <= |s| < MAX_BITS && forall b :: 0 <= Slot(at[s], b) < TREE_SIZE
  {
    hide NodesFit;
    NodesInTree(words, at);
    assert Inner(words, s);
    var j :| Used(words, j) && |s| < |words[j]| && IsPrefix(s, words[j]);
  }

  lemma SlotEntry(words: seq<Path>, at: map<Path, int>, s: Path, e: int)
    requires SlotOk(words, |words|, at, s, e) && forall t :: t in at ==> at[t] < 0
    ensures e < 0 ==> s in at && at[s] == e
    ensures e >= 0 ==> e < |words| || e == 0
  {
    hide IsPrefix;
    if s !in at {
      if i :| 0 <= i < |words| && LongMatch(words, i, s) {
        assert e == i;
      }
    }
  }

  // The next slot on the walk: a symbol, nothing, or the next node; no walk is longer than a code.
  lemma SlotKinds(words: seq<Path>, at: map<Path, int>, lookUp: seq<int>, tree: seq<int>, bits: Path, l: nat, temp: int)
    requires Decodes(words, at, lookUp, tree) && |bits| >= MAX_BITS && AtNode(at, bits, l, temp)
    ensures temp < 0 && FAST_BITS <= l < MAX_BITS && 0 <= Slot(temp, bits[l]) < TREE_SIZE
    ensures var e := tree[Slot(temp, bits[l])];
      && (e < 0 ==> AtNode(at, bits, l + 1, e))
      && (e >= 0 ==> e < |words| || e == 0)
  {
    hide LookUps, PathsMade, Closed, Blank, NodesFit, SlotOk, PrefixCode, Inner;
    var s := bits[..l];
    NodeBounds(words, at, s);
    var b := bits[l];
    assert bits[..l + 1] == s + [b];
    assert SlotOk(words, |words|, at, s + [b], tree[Slot(at[s], b)]);
    SlotEntry(words, at, s + [b], tree[Slot(at[s], b)]);
  }

  // The number and the bits agree on what the walk reads.
  lemma SeenBit(bitBuf: nat, numBits: nat, l: nat)
    requires l < MAX_BITS
    ensures Seen(bitBuf, numBits)[l] == (bitBuf / Pow2(l) % 2 == 1)
    ensures Value(Seen(bitBuf, numBits)[..FAST_BITS]) == bitBuf % FAST_SIZE
  {
    hide Pow2;
    LsbSuffix(bitBuf, l, numBits + MAX_BITS);
    var rest := Seen(bitBuf, numBits)[l..];
    assert rest[0] == Seen(bitBuf, numBits)[l];
    LsbPrefix(bitBuf, FAST_BITS, numBits + MAX_BITS);
    LowPart(bitBuf, FAST_BITS);
    Pow2Table();
  }

  // The symbol for an accumulator, and how many bits its code takes.
  ghost function Symbol(lookUp: seq<int>, tree: seq<int>, bitBuf: nat, numBits: nat): (int, int)
    requires |lookUp| == FAST_SIZE && |tree| == TREE_SIZE
  {
    Decode(lookUp, tree, Seen(bitBuf, numBits))
  }

  // Walks the tree from a node while the accumulator has bits for it, or to the end.
  method Walk(lookUp: array<int>, tree: array<int>, bitBuf: nat, numBits: nat, node: int, limit: nat,
              ghost words: seq<Path>, ghost at: map<Path, int>) returns (temp: int, codeLen: nat)
    requires lookUp.Length == FAST_SIZE && tree.Length == TREE_SIZE && limit > FAST_BITS
    requires Decodes(words, at, lookUp[..], tree[..]) && node < 0 && node == lookUp[bitBuf % FAST_SIZE]
    ensures FAST_BITS < codeLen <= MAX_BITS && (temp < 0 ==> codeLen >= limit) && (temp >= 0 ==> codeLen <= limit)
    ensures temp >= 0 ==> (temp < |words| || temp == 0) && Symbol(lookUp[..], tree[..], bitBuf, numBits) == (temp, codeLen)
    ensures temp < 0 ==> Symbol(lookUp[..], tree[..], bitBuf, numBits).1 > limit
  {
    hide Decodes, AtNode, Pow2, Seen, Follow, Decode, LsbBits;
    ghost var bits, l, t := Seen(bitBuf, numBits), lookUp[..], tree[..];
    SeenBit(bitBuf, numBits, 0);
    EntryKinds(words, at, l, t, bits);
    WalkStart(l, t, bitBuf, numBits, node);
    temp, codeLen := node, FAST_BITS;
    while true
      invariant FAST_BITS <= codeLen < MAX_BITS && codeLen < limit && temp < 0 && AtNode(at, bits, codeLen, temp)
      invariant Follows(l, t, bitBuf, numBits, codeLen, temp)
      decreases MAX_BITS - codeLen
    {
      SlotKinds(words, at, l, t, bits, codeLen, temp);
      SeenBit(bitBuf, numBits, codeLen);
      WalkStep(l, t, bitBuf, numBits, codeLen, temp);
      temp := tree[-temp - 1 + bitBuf / Pow2(codeLen) % 2];
      codeLen := codeLen + 1;
      if temp < 0 {
        SlotKinds(words, at, l, t, bits, codeLen, temp);
      }
      if temp >= 0 || codeLen >= limit {
        break;
      }
    }
    WalkEnd(words, at, l, t, bitBuf, numBits, codeLen, temp);
  }

  // Decoding goes on from here.
  ghost predicate Follows(lookUp: seq<int>, tree: seq<int>, bitBuf: nat, numBits: nat, l: nat, temp: int) {
    && |lookUp| == FAST_SIZE && |tree| == TREE_SIZE && l <= MAX_BITS
    && var bits := Seen(bitBuf, numBits);
      var (sym, rest) := Follow(tree, temp, bits[l..]);
      Symbol(lookUp, tree, bitBuf, numBits) == (sym, |bits| - |rest|)
  }

  lemma WalkStart(lookUp: seq<int>, tree: seq<int>, bitBuf: nat, numBits: nat, node: int)
    requires |lookUp| == FAST_SIZE && |tree| == TREE_SIZE && node < 0 && node == lookUp[bitBuf % FAST_SIZE]
    ensures Follows(lookUp, tree, bitBuf, numBits, FAST_BITS, node)
  {
    hide Follow, LsbBits, Value;
    SeenBit(bitBuf, numBits, 0);
  }

  lemma WalkStep(lookUp: seq<int>, tree: seq<int>, bitBuf: nat, numBits: nat, l: nat, temp: int)
    requires Follows(lookUp, tree, bitBuf, numBits, l, temp) && temp < 0 && l < MAX_BITS
    requires 0 <= Slot(temp, Seen(bitBuf, numBits)[l]) < TREE_SIZE
    ensures Follows(lookUp, tree, bitBuf, numBits, l + 1, tree[Slot(temp, Seen(bitBuf, numBits)[l])])
  {
    hide LsbBits, Decode;
    var bits := Seen(bitBuf, numBits);
    assert bits[l..][0] == bits[l] && bits[l..][1..] == bits[l + 1..];
  }

  lemma WalkEnd(words: seq<Path>, at: map<Path, int>, lookUp: seq<int>, tree: seq<int>, bitBuf: nat, numBits: nat, l: nat, temp: int)
    requires Decodes(words, at, lookUp, tree) && Follows(lookUp, tree, bitBuf, numBits, l, temp) && l <= MAX_BITS
    requires temp < 0 ==> AtNode(at, Seen(bitBuf, numBits), l, temp)
    ensures temp >= 0 ==> Symbol(lookUp, tree, bitBuf, numBits) == (temp, l)
    ensures temp < 0 ==> Symbol(lookUp, tree, bitBuf, numBits).1 > l
  {
    hide LsbBits, Decode, Decodes;
    var bits := Seen(bitBuf, numBits);
    if temp < 0 {
      SlotKinds(words, at, lookUp, tree, bits, l, temp);
      FollowShorter(tree, tree[Slot(temp, bits[l])], bits[l..][1..]);
    }
  }

  lemma {:induction false} FollowShorter(tree: seq<int>, temp: int, bits: Path)
    requires |tree| == TREE_SIZE
    ensures |Follow(tree, temp, bits).1| <= |bits|
    decreases |bits|
  {
    if !(temp >= 0 || bits == [] || Slot(temp, bits[0]) >= TREE_SIZE || Slot(temp, bits[0]) < 0) {
      FollowShorter(tree, tree[Slot(temp, bits[0])], bits[1..]);
    }
  }

  // Whether the accumulator's bits already hold a whole code.
  method Resolved(lookUp: array<int>, tree: array<int>, bitBuf: nat, numBits: nat,
                  ghost words: seq<Path>, ghost at: map<Path, int>) returns (found: bool)
    requires lookUp.Length == FAST_SIZE && tree.Length == TREE_SIZE && Decodes(words, at, lookUp[..], tree[..])
    ensures found <==> 0 < Symbol(lookUp[..], tree[..], bitBuf, numBits).1 <= numBits
  {
    hide Decodes, Pow2, Seen, Follow, LsbBits;
    ghost var bits := Seen(bitBuf, numBits);
    SeenBit(bitBuf, numBits, 0);
    EntryKinds(words, at, lookUp[..], tree[..], bits);
    var temp := lookUp[bitBuf % FAST_SIZE];
    if temp >= 0 {
      var codeLen := temp / 512;
      return codeLen > 0 && numBits >= codeLen;
    }
    if numBits > FAST_BITS {
      var codeLen;
      temp, codeLen := Walk(lookUp, tree, bitBuf, numBits, temp, numBits, words, at);
      return temp >= 0;
    }
    WalkStart(lookUp[..], tree[..], bitBuf, numBits, temp);
    WalkEnd(words, at, lookUp[..], tree[..], bitBuf, numBits, FAST_BITS, temp);
    return false;
  }

  // The symbol at the head of the accumulator's bits, and the length of its code.
  method Find(lookUp: array<int>, tree: array<int>, bitBuf: nat, numBits: nat,
              ghost words: seq<Path>, ghost at: map<Path, int>) returns (sym: nat, codeLen: nat)
    requires lookUp.Length == FAST_SIZE && tree.Length == TREE_SIZE && Decodes(words, at, lookUp[..], tree[..])
    ensures Symbol(lookUp[..], tree[..], bitBuf, numBits) == (sym, codeLen)
    ensures codeLen <= MAX_BITS && (sym < |words| || sym == 0)
  {
    hide Decodes, Pow2, Seen, Follow, LsbBits;
    SeenBit(bitBuf, numBits, 0);
    EntryKinds(words, at, lookUp[..], tree[..], Seen(bitBuf, numBits));
    var temp := lookUp[bitBuf % FAST_SIZE];
    if temp >= 0 {
      codeLen, sym := temp / 512, temp % 512;
    } else {
      temp, codeLen := Walk(lookUp, tree, bitBuf, numBits, temp, MAX_BITS + 1, words, at);
      sym := temp;
    }
  }

  // A code word at the head of what is ahead: once its bits are in the accumulator it is what is found.
  lemma FoundIs(ahead: seq<bool>, bitBuf: nat, numBits: nat, lookUp: seq<int>, tree: seq<int>, words: seq<Path>, at: map<Path, int>, i: int)
    requires Decodes(words, at, lookUp, tree) && Used(words, i) && IsPrefix(words[i], ahead)
    requires numBits <= |ahead| && ahead[..numBits] == LsbBits(bitBuf, numBits) && |words[i]| <= numBits
    ensures Symbol(lookUp, tree, bitBuf, numBits) == (i, |words[i]|)
  {
    hide Table, PrefixCode, NodesFit, Decode, LsbBits;
    var w, bits := words[i], Seen(bitBuf, numBits);
    LsbPrefix(bitBuf, numBits, numBits + MAX_BITS);
    assert bits[..|w|] == bits[..numBits][..|w|] == ahead[..numBits][..|w|];
    DecodeWord(words, at, lookUp, tree, i, bits);
  }

  // A positive entry is a short word that heads the ten bits.
  lemma EntryWord(words: seq<Path>, at: map<Path, int>, lookUp: seq<int>, tree: seq<int>, bits: Path) returns (j: int)
    requires Decodes(words, at, lookUp, tree) && |bits| >= MAX_BITS
    requires Value(bits[..FAST_BITS]) < FAST_SIZE && lookUp[Value(bits[..FAST_BITS])] > 0
    ensures Used(words, j) && IsPrefix(words[j], bits[..FAST_BITS])
    ensures lookUp[Value(bits[..FAST_BITS])] / 512 == |words[j]|
  {
    hide LookUps, Slots, PathsMade, Closed, Blank, NodesFit, PrefixCode;
    EntryFor(words, at, lookUp, bits);
    var x, e := bits[..FAST_BITS], lookUp[Value(bits[..FAST_BITS])];
    j :| 0 <= j < |words| && ShortMatch(words, j, x);
    assert e == |words[j]| * 512 + j;
    FewWords(words, at, lookUp, tree);
    EntryParts(j, |words[j]|);
  }

  lemma FewWords(words: seq<Path>, at: map<Path, int>, lookUp: seq<int>, tree: seq<int>)
    requires Decodes(words, at, lookUp, tree)
    ensures |words| <= MAX_SYMBOLS && |lookUp| == FAST_SIZE && |tree| == TREE_SIZE
  {}

  // Along a long word the walk stays on nodes.
  lemma {:induction false} OnTheWay(words: seq<Path>, at: map<Path, int>, lookUp: seq<int>, tree: seq<int>,
                                    bitBuf: nat, numBits: nat, i: int, l: nat)
    requires |lookUp| == FAST_SIZE && |tree| == TREE_SIZE && Decodes(words, at, lookUp, tree) && Used(words, i)
    requires FAST_BITS <= l <= numBits < |words[i]| <= MAX_BITS && Seen(bitBuf, numBits)[..numBits] == words[i][..numBits]
    ensures words[i][..l] in at && AtNode(at, Seen(bitBuf, numBits), l, at[words[i][..l]])
    ensures Follows(lookUp, tree, bitBuf, numBits, l, at[words[i][..l]])
    decreases l
  {
    hide LookUps, Slots, Closed, Blank, NodesFit, PrefixCode, Follows, LsbBits, Nodes;
    var w, bits := words[i], Seen(bitBuf, numBits);
    assert w[..l] in at;
    assert bits[..l] == bits[..numBits][..l] == w[..numBits][..l] == w[..l];
    if l == FAST_BITS {
      EntryFor(words, at, lookUp, bits);
      SeenBit(bitBuf, numBits, 0);
      SlotKinds(words, at, lookUp, tree, bits, l, at[w[..l]]);
      WalkStart(lookUp, tree, bitBuf, numBits, at[w[..l]]);
    } else {
      OnTheWay(words, at, lookUp, tree, bitBuf, numBits, i, l - 1);
      var before := at[w[..l - 1]];
      SlotKinds(words, at, lookUp, tree, bits, l - 1, before);
      WalkStep(lookUp, tree, bitBuf, numBits, l - 1, before);
      NextNode(words, at, lookUp, tree, bits, l - 1, before);
    }
  }

  // A slot whose path is a node's holds that node.
  lemma NextNode(words: seq<Path>, at: map<Path, int>, lookUp: seq<int>, tree: seq<int>, bits: Path, l: nat, temp: int)
    requires Decodes(words, at, lookUp, tree) && |tree| == TREE_SIZE && AtNode(at, bits, l, temp) && l < |bits|
    requires bits[..l + 1] in at && 0 <= Slot(temp, bits[l]) < TREE_SIZE
    ensures tree[Slot(temp, bits[l])] == at[bits[..l + 1]]
  {
    hide LookUps, PathsMade, Closed, Blank, NodesFit, PrefixCode, Nodes, LongMatch;
    assert bits[..l + 1] == bits[..l] + [bits[l]];
    assert SlotOk(words, |words|, at, bits[..l] + [bits[l]], tree[Slot(at[bits[..l]], bits[l])]);
  }

  // A longer code at the head keeps the table from finding one within the accumulator.
  lemma LongerNotFound(ahead: seq<bool>, bitBuf: nat, numBits: nat, lookUp: seq<int>, tree: seq<int>,
                       words: seq<Path>, at: map<Path, int>, i: int)
    requires |lookUp| == FAST_SIZE && |tree| == TREE_SIZE && Decodes(words, at, lookUp, tree)
    requires Used(words, i) && IsPrefix(words[i], ahead)
    requires numBits <= |ahead| && ahead[..numBits] == LsbBits(bitBuf, numBits) && numBits < |words[i]|
    ensures !(0 < Symbol(lookUp, tree, bitBuf, numBits).1 <= numBits)
  {
    hide Table, NodesFit, LsbBits, Follow, Follows, AtNode;
    var w, bits := words[i], Seen(bitBuf, numBits);
    LsbPrefix(bitBuf, numBits, numBits + MAX_BITS);
    assert w[..numBits] == ahead[..|w|][..numBits] == bits[..numBits];
    EntryKinds(words, at, lookUp, tree, bits);
    SeenBit(bitBuf, numBits, 0);
    var e := lookUp[Value(bits[..FAST_BITS])];
    if numBits >= FAST_BITS {
      OnTheWay(words, at, lookUp, tree, bitBuf, numBits, i, numBits);
      SlotKinds(words, at, lookUp, tree, bits, numBits, at[w[..numBits]]);
      WalkEnd(words, at, lookUp, tree, bitBuf, numBits, numBits, at[w[..numBits]]);
    } else if e < 0 {
      WalkStart(lookUp, tree, bitBuf, numBits, e);
      WalkEnd(words, at, lookUp, tree, bitBuf, numBits, FAST_BITS, e);
    } else if e > 0 {
      var j := EntryWord(words, at, lookUp, tree, bits);
      NoShorterWord(words, i, j, bits, ahead, numBits);
    }
  }

  lemma NoShorterWord(words: seq<Path>, i: int, j: int, bits: Path, ahead: Path, numBits: nat)
    requires PrefixCode(words) && Used(words, i) && Used(words, j) && IsPrefix(words[i], ahead)
    requires numBits < FAST_BITS <= |bits| && numBits <= |ahead| && bits[..numBits] == ahead[..numBits]
    requires IsPrefix(words[j], bits[..FAST_BITS]) && numBits < |words[i]|
    ensures |words[j]| > numBits
  {
    hide PrefixCode;
    var v := words[j];
    if |v| <= numBits {
      assert bits[..FAST_BITS][..|v|] == bits[..numBits][..|v|] == ahead[..|v|];
      OneMatch(words, i, j, ahead);
    }
  }

  // What heads the bits is what the table finds, if it finds anything in the accumulator.
  ghost predicate HeadFound(words: seq<Path>, ahead: seq<bool>, numBits: nat, found: (int, int)) {
    forall i :: Used(words, i) && IsPrefix(words[i], ahead) ==>
      (if |words[i]| <= numBits then found == (i, |words[i]|) else !(0 < found.1 <= numBits))
  }

  lemma HeadIsFound(r: Reader, lookUp: seq<int>, tree: seq<int>, words: seq<Path>, at: map<Path, int>)
    requires r.Valid() && |lookUp| == FAST_SIZE && |tree| == TREE_SIZE && Decodes(words, at, lookUp, tree)
    ensures HeadFound(words, r.Rest(), r.numBits, Symbol(lookUp, tree, r.bitBuf, r.numBits))
  {
    hide Decodes, IsPrefix, Symbol, LsbBits, BytesBits;
    var ahead := r.Rest();
    assert ahead[..r.numBits] == LsbBits(r.bitBuf, r.numBits);
    forall i | Used(words, i) && IsPrefix(words[i], ahead)
      ensures if |words[i]| <= r.numBits then Symbol(lookUp, tree, r.bitBuf, r.numBits) == (i, |words[i]|)
              else !(0 < Symbol(lookUp, tree, r.bitBuf, r.numBits).1 <= r.numBits)
    {
      if |words[i]| <= r.numBits {
        FoundIs(ahead, r.bitBuf, r.numBits, lookUp, tree, words, at, i);
      } else {
        LongerNotFound(ahead, r.bitBuf, r.numBits, lookUp, tree, words, at, i);
      }
    }
  }

  // Some word heads any bits that are as many as the longest code has.
  ghost predicate NoGap(words: seq<Path>) {
    forall bits: Path :: |bits| >= MAX_BITS ==> Headed(words, bits)
  }

  ghost predicate Headed(words: seq<Path>, bits: Path) {
    exists i :: Used(words, i) && IsPrefix(words[i], bits)
  }

  // With no gaps between the words, what is found in the accumulator is a word that heads the bits ahead.
  lemma FoundHeads(r: Reader, lookUp: seq<int>, tree: seq<int>, words: seq<Path>, at: map<Path, int>)
    requires r.Valid() && |lookUp| == FAST_SIZE && |tree| == TREE_SIZE && Decodes(words, at, lookUp, tree)
    requires r.numBits >= 15 || 0 < Symbol(lookUp, tree, r.bitBuf, r.numBits).1 <= r.numBits
    ensures NoGap(words) ==> Headed(words, r.Rest())
  {
    hide Decodes, Symbol, LsbBits, BytesBits;
    var ahead := r.Rest();
    assert ahead[..r.numBits] == LsbBits(r.bitBuf, r.numBits);
    if NoGap(words) && r.numBits < 15 {
      FoundInside(ahead, r.bitBuf, r.numBits, lookUp, tree, words, at);
    }
  }

  lemma FoundInside(ahead: seq<bool>, bitBuf: nat, numBits: nat, lookUp: seq<int>, tree: seq<int>, words: seq<Path>, at: map<Path, int>)
    requires |lookUp| == FAST_SIZE && |tree| == TREE_SIZE && Decodes(words, at, lookUp, tree) && NoGap(words)
    requires numBits <= |ahead| && ahead[..numBits] == LsbBits(bitBuf, numBits)
    requires 0 < Symbol(lookUp, tree, bitBuf, numBits).1 <= numBits
    ensures Headed(words, ahead)
  {
    hide Table, PrefixCode, NodesFit, Decode, LsbBits;
    var bits := Seen(bitBuf, numBits);
    assert Headed(words, bits);
    var i :| Used(words, i) && IsPrefix(words[i], bits);
    DecodeWord(words, at, lookUp, tree, i, bits);
    LsbPrefix(bitBuf, numBits, numBits + MAX_BITS);
    assert ahead[..|words[i]|] == ahead[..numBits][..|words[i]|] == bits[..numBits][..|words[i]|] == words[i];
    assert IsPrefix(words[i], ahead);
  }

  // Reads bytes one at a time until a whole code is there; fails only when no code heads the bits.
  method FillFor(r: Reader, lookUp: array<int>, tree: array<int>, ghost words: seq<Path>, ghost at: map<Path, int>)
    returns (ok: bool)
    requires r.Valid() && r.numBits < 15 && lookUp.Length == FAST_SIZE && tree.Length == TREE_SIZE
    requires Decodes(words, at, lookUp[..], tree[..])
    modifies r`pos, r`bitBuf, r`numBits
    ensures r.Valid() && r.Rest() == old(r.Rest())
    ensures ok ==> r.numBits >= 15 || 0 < Symbol(lookUp[..], tree[..], r.bitBuf, r.numBits).1 <= r.numBits
    ensures !ok ==> forall i :: Used(words, i) ==> !IsPrefix(words[i], r.Rest())
  {
    hide Decodes, Symbol;
    while true
      invariant r.Valid() && r.Rest() == old(r.Rest())
      decreases |r.input| - r.pos
    {
      var found := Resolved(lookUp, tree, r.bitBuf, r.numBits, words, at);
      if found {
        return true;
      }
      HeadIsFound(r, lookUp[..], tree[..], words, at);
      ok := r.GetByte();
      if !ok {
        return;
      }
      if r.numBits >= 15 {
        break;
      }
    }
    ok := true;
  }

  // Decodes the next symbol from the bits in the accumulator, when they hold a whole code.
  method DecodeHeld(r: Reader, lookUp: array<int>, tree: array<int>, ghost words: seq<Path>, ghost at: map<Path, int>)
    returns (sym: nat)
    requires r.Valid() && lookUp.Length == FAST_SIZE && tree.Length == TREE_SIZE
    requires Decodes(words, at, lookUp[..], tree[..])
    requires r.numBits >= 15 || 0 < Symbol(lookUp[..], tree[..], r.bitBuf, r.numBits).1 <= r.numBits
    modifies r`bitBuf, r`numBits
    ensures r.Valid() && |r.Rest()| <= |old(r.Rest())| && r.numBits + 15 >= old(r.numBits)
    ensures sym < |words| || sym == 0
    ensures forall i :: Used(words, i) && IsPrefix(words[i], old(r.Rest())) ==>
      (sym == i && r.Rest() == old(r.Rest())[|words[i]|..])
    ensures NoGap(words) ==> Headed(words, old(r.Rest()))
  {
    hide Decodes, Symbol, NoGap;
    FoundHeads(r, lookUp[..], tree[..], words, at);
    WordsShort(words, at, lookUp[..], tree[..]);
    HeadIsFound(r, lookUp[..], tree[..], words, at);
    var codeLen;
    sym, codeLen := Find(lookUp, tree, r.bitBuf, r.numBits, words, at);
    var v := r.Take(codeLen);
  }

  // Decodes the next symbol. Whatever word heads the bits ahead is found, and just its bits are taken.
  method HuffDecode(r: Reader, lookUp: array<int>, tree: array<int>, ghost words: seq<Path>, ghost at: map<Path, int>)
    returns (ok: bool, sym: nat)
    requires r.Valid() && lookUp.Length == FAST_SIZE && tree.Length == TREE_SIZE
    requires Decodes(words, at, lookUp[..], tree[..])
    modifies r`pos, r`bitBuf, r`numBits
    ensures r.Valid() && |r.Rest()| <= |old(r.Rest())|
    ensures ok ==> sym < |words| || sym == 0
    ensures forall i :: Used(words, i) && IsPrefix(words[i], old(r.Rest())) ==>
      (ok && sym == i && r.Rest() == old(r.Rest())[|words[i]|..])
    ensures ok && NoGap(words) ==> Headed(words, old(r.Rest()))
  {
    hide Decodes, Symbol, NoGap;
    if r.numBits < 15 {
      if |r.input| - r.pos < 2 {
        ok := FillFor(r, lookUp, tree, words, at);
        if !ok {
          return false, 0;
        }
      } else {
        ok := r.GetByte();
        ok := r.GetByte();
      }
    }
    sym := DecodeHeld(r, lookUp, tree, words, at);
    ok := true;
  }

  lemma WordsShort(words: seq<Path>, at: map<Path, int>, lookUp: seq<int>, tree: seq<int>)
    requires Decodes(words, at, lookUp, tree)
    ensures forall i :: Used(words, i) ==> |words[i]| <= MAX_BITS
  {}
}
