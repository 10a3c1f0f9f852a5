/**
 The transactions and receipts of a block: the cached encodings of the lists and the cached roots, the
 encoded block, and the check that recomputes the root of the transactions from the encoded block.
 */
module Block {
  import opened Rlp
  import opened RlpView
  import opened TrieHash
  import opened TrieRefs
  import opened TrieCanon
  import opened MapHash
  import opened TrieBinding

  // Positions and the number of items are cut to 32 bits where keys are made and items counted.
  const COUNTER_RANGE := 0x1_0000_0000
  const HEADER_FIELDS := 12
  const ROOT_FIELD := 2
  const RECEIPTS_FIELD := 3

  // ---- the map that is hashed ----

  predicate AllFilled(encs: seq<Bytes>) {
    forall i :: 0 <= i < |encs| ==> encs[i] != []
  }

  /** Byte strings under the encodings of their positions. */
  function IndexMap(encs: seq<Bytes>): Contents {
    if encs == [] then map[]
    else IndexMap(encs[..|encs| - 1])[EncodeInt(|encs| - 1) := encs[|encs| - 1]]
  }

  lemma {:induction false} IndexInjective(i: nat, j: nat)
    requires i <= COUNTER_RANGE && j <= COUNTER_RANGE && EncodeInt(i) == EncodeInt(j)
    ensures i == j
  {
    BigEndianFitsEight(i);
    BigEndianFitsEight(j);
    IntRoundTrip(i);
    IntRoundTrip(j);
  }

  lemma {:induction false} IndexIsShort(i: nat)
    requires i <= COUNTER_RANGE
    ensures |EncodeInt(i)| <= 9
  {
    BigEndianFitsEight(i);
  }

  /** Up to 2^32 items, each position has a key of its own. */
  lemma {:induction false} NewIndex(encs: seq<Bytes>, n: nat)
    requires |encs| <= n <= COUNTER_RANGE
    ensures EncodeInt(n) !in IndexMap(encs)
    decreases |encs|
  {
    if encs != [] {
      NewIndex(encs[..|encs| - 1], n);
      if EncodeInt(n) == EncodeInt(|encs| - 1) { IndexInjective(n, |encs| - 1); }
    }
  }

  lemma {:induction false} OldIndex(encs: seq<Bytes>, i: nat)
    requires i < |encs|
    ensures EncodeInt(i) in IndexMap(encs)
    decreases |encs|
  {
    if i < |encs| - 1 { OldIndex(encs[..|encs| - 1], i); }
  }

  ghost predicate AllShort(encs: seq<Bytes>) {
    forall i :: 0 <= i < |encs| ==> |encs[i]| <= MAX_VALUE
  }

  lemma {:induction false} IndexMapFits(encs: seq<Bytes>)
    requires |encs| <= COUNTER_RANGE && AllFilled(encs)
    ensures AllStored(IndexMap(encs)) && KeysFit(IndexMap(encs))
    ensures AllShort(encs) ==> MapFits(IndexMap(encs))
    decreases |encs|
  {
    hide EncodeInt;
    if encs != [] {
      var before, last := encs[..|encs| - 1], encs[|encs| - 1];
      IndexMapFits(before);
      IndexIsShort(|before|);
      hide IndexMap;
      assert encs == before + [last];
      IndexStep(before, last);
    }
  }

  /** The root over a list of byte strings. */
  ghost function IndexRoot(H: Hasher, encs: seq<Bytes>): Hash
    requires |encs| <= COUNTER_RANGE && AllFilled(encs)
  {
    IndexMapFits(encs);
    HashOf(H, IndexMap(encs))
  }

  /** The items that have keys of their own when positions are cut to 32 bits: later ones repeat them. */
  function Reached(encs: seq<Bytes>): (r: seq<Bytes>)
    ensures |r| <= COUNTER_RANGE && (AllFilled(encs) ==> AllFilled(r))
  {
    if |encs| <= COUNTER_RANGE then encs else encs[..COUNTER_RANGE]
  }

  /** The items that are counted when their number is cut to 32 bits. */
  function Counted(encs: seq<Bytes>): (r: seq<Bytes>)
    ensures |r| < COUNTER_RANGE && (AllFilled(encs) ==> AllFilled(r))
  {
    encs[..|encs| % COUNTER_RANGE]
  }

  /** The strings that are hashed for the two roots. */
  ghost function RootsInPlay(H: Hasher, encs: seq<Bytes>): set<Bytes>
    requires AllFilled(encs)
  {
    IndexMapFits(Reached(encs));
    IndexMapFits(Counted(encs));
    Hashed(H, TreeOf(IndexMap(Reached(encs)))) + Hashed(H, TreeOf(IndexMap(Counted(encs))))
  }

  /** The two roots are the same for fewer than 2^32 items and, unless hashes collide, for no more. */
  lemma {:induction false} RootsMeet(H: Hasher, encs: seq<Bytes>)
    requires AllFilled(encs)
    ensures |encs| < COUNTER_RANGE ==> IndexRoot(H, Reached(encs)) == IndexRoot(H, Counted(encs))
    ensures |encs| >= COUNTER_RANGE && AllShort(encs) && CollisionFree(H, RootsInPlay(H, encs)) ==>
      IndexRoot(H, Reached(encs)) != IndexRoot(H, Counted(encs))
  {
    hide IndexMap, IndexRoot, Hashed, CollisionFree, TreeOf;
    var all, few := Reached(encs), Counted(encs);
    if |encs| < COUNTER_RANGE {
      assert all == few;
    } else if AllShort(encs) && CollisionFree(H, RootsInPlay(H, encs)) {
      IndexMapFits(all);
      IndexMapFits(few);
      RootsPart(H, all, few);
    }
  }

  /** The roots over 2^32 items and over fewer differ. */
  lemma {:induction false} RootsPart(H: Hasher, all: seq<Bytes>, few: seq<Bytes>)
    requires |all| == COUNTER_RANGE > |few| && AllFilled(all) && AllFilled(few) && AllShort(all) && AllShort(few)
    requires AllStored(IndexMap(all)) && AllStored(IndexMap(few))
    requires CollisionFree(H, Hashed(H, TreeOf(IndexMap(all))) + Hashed(H, TreeOf(IndexMap(few))))
    ensures IndexRoot(H, all) != IndexRoot(H, few)
  {
    hide IndexMap, Hashed, CollisionFree, HashOf, TreeOf, AllStored, MapFits, KeysFit;
    OldIndex(all, COUNTER_RANGE - 1);
    NewIndex(few, COUNTER_RANGE - 1);
    IndexMapFits(all);
    IndexMapFits(few);
    if HashOf(H, IndexMap(all)) == HashOf(H, IndexMap(few)) {
      HashBinds(H, IndexMap(all), IndexMap(few));
      assert false;
    }
  }

  // ---- the check of an encoded block ----

  /** The root over the items of a payload, read one after the other. */
  method TrieRootOver(H: Hasher, payload: Bytes) returns (h: Hash)
    requires Splits(payload)
    ensures AllFilled(Cut(payload)) && h == IndexRoot(H, Counted(Cut(payload)))
  {
    hide EncodeInt, IndexMap, Cut, Splits, RlpView.ItemAt;
    ghost var encs := Cut(payload);
    NothingIndexed();
    var list := new ListView(payload);
    var items := list.Items();
    var count := items % COUNTER_RANGE;
    var m: Contents := map[];
    for i := 0 to count
      invariant list.Valid() && m == IndexMap(encs[..i])
    {
      CutAt(payload, i);
      var data := list.At(i);
      IndexStep(encs[..i], data);
      assert encs[..i] + [data] == encs[..i + 1];
      m := m[EncodeInt(i) := data];
    }
    forall i | 0 <= i < |encs| ensures encs[i] != [] { CutAt(payload, i); }
    IndexMapFits(Counted(encs));
    h := Hash256(H, m);
  }

  /** The transactions that an encoded block lists, read without looking at anything else. */
  function Listed(block: Bytes): (r: Result<seq<Bytes>>)
    requires block != []
    ensures r.Ok? ==> AllFilled(r.value)
  {
    if SizeAsEncoded(block) != Ok(|block|) then Err(BadRlp)
    else
      var list :- Nth(Payload(block), 1);
      NthIsWhole(Payload(block), 1);
      ItemsOf(list)
  }

  /** Whether a root is the one recomputed from an encoded block; without a block nothing is compared. */
  method Verify(H: Hasher, root: Hash, block: Bytes) returns (r: Result<bool>)
    ensures block == [] ==> r == Ok(true)
    ensures block != [] ==> (r.Err? <==> Listed(block).Err?)
    ensures block != [] && r.Ok? ==> (r.value <==> root == IndexRoot(H, Counted(Listed(block).value)))
  {
    if block == [] { return Ok(true); }
    if SizeAsEncoded(block) != Ok(|block|) { return Err(BadRlp); }
    var list := Nth(Payload(block), 1);
    if list.Err? { return Err(list.error); }
    NthIsWhole(Payload(block), 1);
    var payload: Bytes := [];
    if list.value != [] && list.value[0] >= LIST_START {
      if !Splits(Payload(list.value)) { return Err(BadRlp); }
      payload := Payload(list.value);
    }
    var expected := TrieRootOver(H, payload);
    return Ok(root == expected);
  }

  /** Of an encoded block the check reads the encodings of the transactions. */
  lemma {:induction false} ListedWhole(items: seq<Item>, txs: seq<Item>)
    requires Fits(List(items)) && |items| >= 2 && items[1] == List(txs)
    ensures Listed(Encode(List(items))) == Ok(Encodings(txs))
  {
    NthEncoded(items, 1);
    FitsInside(items, 1);
    ItemsOfList(txs);
    hide Encode, SizeAsEncoded, Payload, Nth, ItemsOf;
  }

  lemma {:induction false} FitsInside(items: seq<Item>, i: nat)
    requires FitsAll(items) && i < |items|
    ensures Fits(items[i])
  {
    hide Fits;
    if i > 0 { FitsInside(items[1..], i - 1); }
  }

  lemma {:induction false} ItemsOfList(items: seq<Item>)
    requires Fits(List(items))
    ensures var b := Encode(List(items));
      b != [] && SizeAsEncoded(b) == Ok(|b|) && ItemsOf(b) == Ok(Encodings(items))
  {
    PayloadOfList(items);
    CutEncodeAll(items);
    hide Encode, EncodeAll, SizeAsEncoded, Cut, Splits;
  }

  // ---- reading a whole block ----

  /** What an encoded block is read into: the encodings of its header and of the items of its lists. */
  datatype Parts = Parts(header: Bytes, transactions: seq<Bytes>, receipts: seq<Bytes>, hash: Hash, signatures: seq<Bytes>)

  predicate IsList(d: Bytes) { d != [] && d[0] >= LIST_START }

  /** The bytes of a data item that is no longer than a hash. */
  function ToHash(d: Bytes): Result<Hash>
    requires SizeAsEncoded(d) == Ok(|d|)
  {
    if d == [] || IsList(d) || |Payload(d)| > 32 then Err(BadRlp) else Ok(Pad(Payload(d)))
  }

  /**
   Reads a block: the five items by their positions, without looking at what follows them.  The block,
   its header and its transactions must be lists, and the hash must be that of the header.
   */
  function ReadBlock(H: Hasher, block: Bytes): (r: Result<Parts>)
    ensures r.Ok? ==> IsList(block) && IsList(r.value.header) && r.value.hash == H(r.value.header)
    ensures r.Ok? ==> Listed(block) == Ok(r.value.transactions)
    ensures r.Ok? ==> Nth(Payload(block), 1).Ok? && IsList(Nth(Payload(block), 1).value)
  {
    if block == [] || SizeAsEncoded(block) != Ok(|block|) || !IsList(block) then Err(BadRlp)
    else
      var p := Payload(block);
      var header :- Nth(p, 0);
      var txs :- Nth(p, 1);
      if !IsList(header) || !IsList(txs) then Err(BadRlp)
      else
        NthIsWhole(p, 1);
        var transactions :- ItemsOf(txs);
        var third :- Nth(p, 2);
        NthIsWhole(p, 2);
        var receipts :- ItemsOf(third);
        var fourth :- Nth(p, 3);
        NthIsWhole(p, 3);
        var hash :- ToHash(fourth);
        if hash != H(header) then Err(BadRlp)
        else
          var fifth :- Nth(p, 4);
          NthIsWhole(p, 4);
          var signatures :- ItemsOf(fifth);
          Ok(Parts(header, transactions, receipts, hash, signatures))
  }

  /** A view is a list exactly when it is an encoded payload, and a hash exactly when it is a short encoded string. */
  lemma {:induction false} KindsOfViews(d: Bytes)
    requires SizeAsEncoded(d) == Ok(|d|)
    ensures IsList(d) <==> exists p: Bytes :: |p| < Rlp.MAX_LENGTH && d == EncodeList(p)
    ensures ToHash(d).Ok? <==> exists v: Bytes :: |v| <= 32 && d == EncodeData(v)
    ensures forall v: Bytes :: |v| <= 32 && d == EncodeData(v) ==> ToHash(d) == Ok(Pad(v))
  {
    if d != [] { PayloadReencodes(d); }
    forall p: Bytes | |p| < Rlp.MAX_LENGTH && d == EncodeList(p) ensures IsList(d) { ViewOfPayload(p); }
    forall v: Bytes | |v| <= 32 && d == EncodeData(v)
      ensures ToHash(d) == Ok(Pad(v))
    {
      ViewOfPayload(v);
      DataPayload(v);
    }
    hide EncodeData, EncodeList, SizeAsEncoded, Pad;
  }

  lemma {:induction false} DataPayload(v: Bytes)
    requires |v| <= 32
    ensures var d := EncodeData(v); d != [] && SizeAsEncoded(d) == Ok(|d|) && Payload(d) == v
  {
    SizeOfData(v, []);
    assert EncodeData(v) + [] == EncodeData(v);
  }

  lemma {:induction false} ToHashOf(h: Hash)
    ensures var b := Encode(Data(h)); SizeAsEncoded(b) == Ok(|b|) && ToHash(b) == Ok(h)
  {
    SizeOfData(h, []);
    assert EncodeData(h) + [] == EncodeData(h);
    assert Payload(EncodeData(h)) == h;
    assert Pad(h) == h;
  }

  /** A block that was written is read back. */
  lemma {:induction false} ReadEncoded(H: Hasher, header: seq<Item>, txs: seq<Item>, receipts: seq<Item>, sigs: seq<Item>)
    requires Fits(BlockItem(H, header, txs, receipts, sigs))
    ensures ReadBlock(H, Encode(BlockItem(H, header, txs, receipts, sigs)))
      == Ok(Parts(Encode(List(header)), Encodings(txs), Encodings(receipts), H(Encode(List(header))), Encodings(sigs)))
  {
    var hash := H(Encode(List(header)));
    var items := BlockItem(H, header, txs, receipts, sigs).items;
    forall i | 0 <= i < 5 ensures Fits(items[i]) { FitsInside(items, i); }
    NthEncoded(items, 0);
    NthEncoded(items, 1);
    NthEncoded(items, 2);
    NthEncoded(items, 3);
    NthEncoded(items, 4);
    ItemsOfList(txs);
    ItemsOfList(receipts);
    ItemsOfList(sigs);
    ToHashOf(hash);
    ListStarts(items);
    ListStarts(header);
    ListStarts(txs);
    hide Encode, SizeAsEncoded, Payload, Nth, ItemsOf, ToHash, Fits, IsList;
  }

  lemma {:induction false} ListStarts(items: seq<Item>)
    requires Fits(List(items))
    ensures IsList(Encode(List(items)))
  {
    PayloadOfList(items);
  }

  // ---- what a block gathers ----

  /** The payload of a list, and the map that is hashed: the first item under a key stays. */
  method Gather(items: seq<Item>) returns (payload: Bytes, m: Contents)
    ensures payload == EncodeAll(items) && m == IndexMap(Reached(Encodings(items)))
  {
    payload, m := [], map[];
    assert EncodeAll([]) == [];
    hide Encode, EncodeAll, EncodeInt, IndexMap;
    NothingIndexed();
    for i := 0 to |items|
      invariant m == IndexMap(Reached(Encodings(items[..i]))) && payload == EncodeAll(items[..i])
    {
      var key, data := EncodeInt(i % COUNTER_RANGE), Encode(items[i]);
      OneMore(items, i);
      OneMoreKey(Encodings(items[..i]), data);
      payload := payload + data;
      if key !in m { m := m[key := data]; }
    }
    assert items[..|items|] == items;
  }

  lemma NothingIndexed()
    ensures IndexMap([]) == map[]
  {
  }

  lemma {:induction false} OneMore(items: seq<Item>, i: nat)
    requires i < |items|
    ensures EncodeAll(items[..i + 1]) == EncodeAll(items[..i]) + Encode(items[i])
    ensures Encodings(items[..i + 1]) == Encodings(items[..i]) + [Encode(items[i])]
  {
    assert items[..i + 1] == items[..i] + [items[i]];
    EncodeAllAppend(items[..i], [items[i]]);
    EncodeCons(items[i], []);
    assert [items[i]] + [] == [items[i]];
  }

  /** Below 2^32 a new item has a new key; from there on its key is taken. */
  lemma {:induction false} OneMoreKey(encs: seq<Bytes>, data: Bytes)
    ensures var key, m, more := EncodeInt(|encs| % COUNTER_RANGE), IndexMap(Reached(encs)), IndexMap(Reached(encs + [data]));
      if key !in m then more == m[key := data] else more == m
  {
    hide IndexMap, EncodeInt;
    var more := encs + [data];
    if |encs| < COUNTER_RANGE {
      NewIndex(encs, |encs|);
      IndexStep(encs, data);
    } else {
      OldIndex(Reached(encs), |encs| % COUNTER_RANGE);
      assert more[..COUNTER_RANGE] == Reached(encs);
    }
  }

  lemma {:induction false} IndexStep(encs: seq<Bytes>, data: Bytes)
    ensures IndexMap(encs + [data]) == IndexMap(encs)[EncodeInt(|encs|) := data]
  {
    hide EncodeInt;
    assert (encs + [data])[..|encs|] == encs;
  }

  lemma {:induction false} EncodingsFilled(items: seq<Item>)
    ensures AllFilled(Encodings(items))
  {
    hide Encode;
  }

  /** The root over the items of a list, as a block computes it. */
  ghost function ListRoot(H: Hasher, items: seq<Item>): Hash {
    EncodingsFilled(items);
    IndexRoot(H, Reached(Encodings(items)))
  }

  // ---- the block ----

  class Block {
    const H: Hasher
    // The header's fields, the roots of the two lists among them.
    var header: seq<Item>
    var transactions: seq<Item>
    var receipts: seq<Item>
    var signatures: seq<Item>
    // The caches; no bytes, or a hash of zeros, where nothing is cached.
    var hashCache: Hash
    var txsCache: Bytes
    var receiptsCache: Bytes
    var transRootCache: Hash
    var receiptRootCache: Hash

    constructor (hasher: Hasher, fields: seq<Item>)
      requires |fields| == HEADER_FIELDS
      ensures Valid() && H == hasher && header == fields && transactions == [] && receipts == []
    {
      H, header, transactions, receipts, signatures, hashCache := hasher, fields, [], [], [], ZERO_HASH;
      txsCache, receiptsCache, transRootCache, receiptRootCache := [], [], ZERO_HASH, ZERO_HASH;
    }

    /** What is cached is right. */
    ghost predicate Valid()
      reads this
    {
      && |header| == HEADER_FIELDS
      && (hashCache != ZERO_HASH ==> hashCache == H(Encode(List(header))))
      && (txsCache != [] ==> txsCache == Encode(List(transactions)) && transRootCache == ListRoot(H, transactions))
      && (receiptsCache != [] ==> receiptsCache == Encode(List(receipts)) && receiptRootCache == ListRoot(H, receipts))
    }

    function Whole(): Item
      reads this
    {
      BlockItem(H, header, transactions, receipts, signatures)
    }

    method NoteChange()
      requires |header| == HEADER_FIELDS && (hashCache != ZERO_HASH ==> hashCache == H(Encode(List(header))))
      modifies this`txsCache, this`receiptsCache
      ensures Valid() && txsCache == [] && receiptsCache == []
    {
      txsCache, receiptsCache := [], [];
    }

    method SetTransactions(txs: seq<Item>)
      requires Valid()
      modifies this`transactions, this`txsCache, this`receiptsCache
      ensures Valid() && transactions == txs
    {
      transactions := txs;
      NoteChange();
    }

    method AppendTransactions(txs: seq<Item>)
      requires Valid()
      modifies this`transactions, this`txsCache, this`receiptsCache
      ensures Valid() && transactions == old(transactions) + txs
    {
      for i := 0 to |txs|
        invariant transactions == old(transactions) + txs[..i]
      {
        transactions := transactions + [txs[i]];
      }
      NoteChange();
    }

    method SetReceipts(list: seq<Item>)
      requires Valid()
      modifies this`receipts, this`txsCache, this`receiptsCache
      ensures Valid() && receipts == list
    {
      receipts := list;
      NoteChange();
    }

    /** Another header with its hash, the other caches kept. */
    method SetHeader(fields: seq<Item>)
      requires Valid() && |fields| == HEADER_FIELDS
      modifies this`header, this`hashCache
      ensures Valid() && header == fields
    {
      header, hashCache := fields, H(Encode(List(fields)));
    }

    method SetSignatures(list: seq<Item>)
      requires Valid()
      modifies this`signatures
      ensures Valid() && signatures == list
    {
      signatures := list;
    }

    /** The hash of the header, computed when it is not cached. */
    method HeaderHash() returns (h: Hash)
      requires Valid()
      modifies this`hashCache
      ensures Valid() && h == H(Encode(List(header)))
    {
      if hashCache == ZERO_HASH {
        hashCache := H(Encode(List(header)));
      }
      return hashCache;
    }

    /** The root over the transactions, computed when it is not cached; the header is updated on request. */
    method CalTransactionRoot(update: bool)
      requires Valid()
      modifies this`txsCache, this`transRootCache, this`header, this`hashCache
      ensures Valid() && txsCache == Encode(List(transactions)) && transRootCache == ListRoot(H, transactions)
      ensures header == if update then old(header)[2 := Data(ListRoot(H, transactions))] else old(header)
    {
      hide Encode, ListRoot;
      if txsCache == [] {
        txsCache, transRootCache := ListAndRoot(H, transactions);
      }
      if update {
        header, hashCache := header[ROOT_FIELD := Data(transRootCache)], ZERO_HASH;
      }
    }

    method CalReceiptRoot(update: bool)
      requires Valid()
      modifies this`receiptsCache, this`receiptRootCache, this`header, this`hashCache
      ensures Valid() && receiptsCache == Encode(List(receipts)) && receiptRootCache == ListRoot(H, receipts)
      ensures header == if update then old(header)[3 := Data(ListRoot(H, receipts))] else old(header)
    {
      hide Encode, ListRoot;
      if receiptsCache == [] {
        receiptsCache, receiptRootCache := ListAndRoot(H, receipts);
      }
      if update {
        header, hashCache := header[RECEIPTS_FIELD := Data(receiptRootCache)], ZERO_HASH;
      }
    }

    /**
     The encoded block: the cached lists go in as they are.  A reader finds five items in it: the header,
     the transactions, the receipts, the hash of the header and the signatures.
     */
    method EncodeBlock() returns (out: Bytes)
      requires Valid()
      modifies this`txsCache, this`transRootCache, this`receiptsCache, this`receiptRootCache, this`header, this`hashCache
      ensures Valid() && header == old(header) && out == Encode(Whole())
      ensures Fits(Whole()) ==>
        && out != [] && SizeAsEncoded(out) == Ok(|out|) && IsList(out)
        && var p := Payload(out);
        && Splits(p) && Count(p) == 5
        && ItemAt(p, 0) == Encode(List(header)) && ItemAt(p, 1) == Encode(List(transactions))
        && ItemAt(p, 2) == Encode(List(receipts)) && ItemAt(p, 3) == Encode(Data(H(Encode(List(header)))))
        && ItemAt(p, 4) == Encode(List(signatures))
    {
      hide Encode, ListRoot, EncodeAll;
      CalTransactionRoot(false);
      CalReceiptRoot(false);
      var hash := HeaderHash();
      out := EncodeList(Encode(List(header)) + txsCache + receiptsCache + Encode(Data(hash)) + Encode(List(signatures)));
      WholeParts(List(header), List(transactions), List(receipts), Data(hash), List(signatures));
      ListOf(Whole().items);
      hide Valid, Whole;
      if Fits(Whole()) { WholeReads(H, header, transactions, receipts, signatures); }
    }
  }

  /** The block as one item. */
  function BlockItem(H: Hasher, header: seq<Item>, txs: seq<Item>, receipts: seq<Item>, sigs: seq<Item>): Item {
    List([List(header), List(txs), List(receipts), Data(H(Encode(List(header)))), List(sigs)])
  }

  lemma {:induction false} WholeReads(H: Hasher, header: seq<Item>, txs: seq<Item>, receipts: seq<Item>, sigs: seq<Item>)
    requires Fits(BlockItem(H, header, txs, receipts, sigs))
    ensures var out := Encode(BlockItem(H, header, txs, receipts, sigs));
      && out != [] && SizeAsEncoded(out) == Ok(|out|) && IsList(out)
      && var p := Payload(out);
      && Splits(p) && Count(p) == 5
      && ItemAt(p, 0) == Encode(List(header)) && ItemAt(p, 1) == Encode(List(txs))
      && ItemAt(p, 2) == Encode(List(receipts)) && ItemAt(p, 3) == Encode(Data(H(Encode(List(header)))))
      && ItemAt(p, 4) == Encode(List(sigs))
  {
    var items := BlockItem(H, header, txs, receipts, sigs).items;
    PayloadOfList(items);
    hide Encode, EncodeAll, SizeAsEncoded, Payload, Splits, ItemAt;
    ItemAtEncodeAll(items, 0);
    ItemAtEncodeAll(items, 1);
    ItemAtEncodeAll(items, 2);
    ItemAtEncodeAll(items, 3);
    ItemAtEncodeAll(items, 4);
  }

  /** The encoding of a list and the root over its items. */
  method ListAndRoot(H: Hasher, items: seq<Item>) returns (list: Bytes, root: Hash)
    ensures list == Encode(List(items)) != [] && root == ListRoot(H, items)
  {
    hide IndexMap, Encode, Reached;
    var payload, m := Gather(items);
    EncodingsFilled(items);
    IndexMapFits(Reached(Encodings(items)));
    ListOf(items);
    list := EncodeList(payload);
    root := Hash256(H, m);
  }

  lemma ListOf(items: seq<Item>)
    ensures Encode(List(items)) == EncodeList(EncodeAll(items)) != []
  {
  }

  lemma {:induction false} WholeParts(a: Item, b: Item, c: Item, d: Item, e: Item)
    ensures EncodeAll([a, b, c, d, e]) == Encode(a) + Encode(b) + Encode(c) + Encode(d) + Encode(e)
  {
    hide Encode;
    var none: seq<Item> := [];
    assert [a, b, c, d, e] == [a] + ([b] + ([c] + ([d] + ([e] + none))));
    EncodeCons(e, none);
    EncodeCons(d, [e] + none);
    EncodeCons(c, [d] + ([e] + none));
    EncodeCons(b, [c] + ([d] + ([e] + none)));
    EncodeCons(a, [b] + ([c] + ([d] + ([e] + none))));
  }

  // ---- whole histories of a block ----

  datatype Op =
    | SetTxs(txs: seq<Item>)
    | AppendTxs(txs: seq<Item>)
    | SetList(list: seq<Item>)
    | SetFields(fields: seq<Item>)
    | SetSigs(list: seq<Item>)
    | CalRoot(update: bool)
    | CalReceipts(update: bool)
    | EncodeAsIs

  predicate Legal(op: Op) {
    op.SetFields? ==> |op.fields| == HEADER_FIELDS
  }

  predicate AllLegal(ops: seq<Op>) {
    forall i :: 0 <= i < |ops| ==> Legal(ops[i])
  }

  /** The transactions after an operation. */
  function After(txs: seq<Item>, op: Op): seq<Item> {
    match op
    case SetTxs(more) => more
    case AppendTxs(more) => txs + more
    case _ => txs
  }

  function AfterAll(txs: seq<Item>, ops: seq<Op>): seq<Item>
    decreases |ops|
  {
    if ops == [] then txs else AfterAll(After(txs, ops[0]), ops[1..])
  }

  method Apply(b: Block, op: Op)
    requires b.Valid() && Legal(op)
    modifies b
    ensures b.Valid() && b.transactions == After(old(b.transactions), op)
  {
    match op
    case SetTxs(txs) => b.SetTransactions(txs);
    case AppendTxs(txs) => b.AppendTransactions(txs);
    case SetList(list) => b.SetReceipts(list);
    case SetFields(fields) => b.SetHeader(fields);
    case SetSigs(list) => b.SetSignatures(list);
    case CalRoot(update) => b.CalTransactionRoot(update);
    case CalReceipts(update) => b.CalReceiptRoot(update);
    case EncodeAsIs => var out := b.EncodeBlock();
  }

  /** Any history of setters, root computations and encodings. */
  method Replay(b: Block, ops: seq<Op>)
    requires b.Valid() && AllLegal(ops)
    modifies b
    ensures b.Valid() && b.transactions == AfterAll(old(b.transactions), ops)
  {
    hide Block.Valid;
    for i := 0 to |ops|
      invariant b.Valid()
      invariant AfterAll(b.transactions, ops[i..]) == AfterAll(old(b.transactions), ops)
    {
      assert ops[i..][0] == ops[i] && ops[i..][1..] == ops[i + 1..];
      Apply(b, ops[i]);
    }
  }

  predicate IsHash(field: Item) { field.Data? && |field.data| == 32 }

  /** The root that the check of an encoded block computes over its transactions. */
  ghost function CheckRoot(H: Hasher, txs: seq<Item>): Hash {
    EncodingsFilled(txs);
    IndexRoot(H, Counted(Encodings(txs)))
  }

  /** The check of a block against its own encoding: it passes exactly when the header holds that root. */
  method CheckEncoded(b: Block) returns (r: Result<bool>)
    requires b.Valid() && IsHash(b.header[ROOT_FIELD]) && Fits(b.Whole())
    modifies b
    ensures b.Valid() && b.Whole() == old(b.Whole())
    ensures b.header == old(b.header) && b.transactions == old(b.transactions)
    ensures r == Ok(b.header[ROOT_FIELD] == Data(CheckRoot(b.H, b.transactions)))
  {
    ghost var txs := b.transactions;
    ListedWhole(b.Whole().items, txs);
    EncodingsFilled(txs);
    hide Encode, Fits, IndexRoot, Listed, Counted, ListRoot;
    var out := b.EncodeBlock();
    r := Verify(b.H, b.header[ROOT_FIELD].data, out);
  }

  ghost predicate ShortTxs(txs: seq<Item>) {
    AllShort(Encodings(txs))
  }

  ghost function TxsInPlay(H: Hasher, txs: seq<Item>): set<Bytes> {
    EncodingsFilled(txs);
    RootsInPlay(H, Encodings(txs))
  }

  lemma {:induction false} TxRootsMeet(H: Hasher, txs: seq<Item>)
    ensures |txs| < COUNTER_RANGE ==> ListRoot(H, txs) == CheckRoot(H, txs)
    ensures |txs| >= COUNTER_RANGE && ShortTxs(txs) && CollisionFree(H, TxsInPlay(H, txs)) ==>
      ListRoot(H, txs) != CheckRoot(H, txs)
  {
    hide IndexRoot, Reached, Counted, CollisionFree, RootsInPlay, Encode;
    EncodingsFilled(txs);
    RootsMeet(H, Encodings(txs));
  }

  /**
   After any history, once the root is set: with fewer than 2^32 transactions the encoded block passes
   the check, and with more it fails, unless hashes collide.
   */
  method SealAndVerify(b: Block, ops: seq<Op>) returns (r: Result<bool>)
    requires b.Valid() && AllLegal(ops)
    modifies b
    ensures b.Valid() && b.transactions == AfterAll(old(b.transactions), ops)
    ensures r.Err? <==> !Fits(b.Whole())
    ensures r.Ok? && |b.transactions| < 0x1_0000_0000 ==> r.value
    ensures r.Ok? && ShortTxs(b.transactions) && CollisionFree(b.H, TxsInPlay(b.H, b.transactions)) ==>
      (r.value <==> |b.transactions| < 0x1_0000_0000)
  {
    Replay(b, ops);
    b.CalTransactionRoot(true);
    hide ListRoot, CheckRoot, Fits, Block.Whole, CollisionFree, TxsInPlay, ShortTxs;
    TxRootsMeet(b.H, b.transactions);
    if Fits(b.Whole()) {
      r := CheckEncoded(b);
    } else {
      r := Err(OversizeRlp);
    }
  }
}
