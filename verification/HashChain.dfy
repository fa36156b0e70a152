/** The hash-linked list of one shard (server.c). SHA-256 in hexadecimal, as section
    6.2 of FIPS 180-4 defines it, is an arbitrary function into 64-character strings:
    nothing is assumed about it, so results that need distinct digests hand back the
    two colliding inputs instead. */
module HashChain {

  const DATA_MAX: nat := 255
  const BUFFER_MAX: nat := 320

  /** A digest in hexadecimal. */
  type Digest = s: string | |s| == 64
    witness "0000000000000000000000000000000000000000000000000000000000000000"

  // ---------------------------------------------------------------- records

  /** The contents of a block. */
  datatype Record = Record(data: string, hash: string, prev: string)

  /** strncpy into a buffer with room for `n` characters and the terminator. */
  function Cut(s: string, n: nat): string {
    if |s| <= n then s else s[..n]
  }

  /** The input of the hash: both strings printed into one buffer. */
  function HashInput(data: string, prev: string): string {
    Cut(data + prev, BUFFER_MAX)
  }

  /** The buffer is large enough for every block. */
  lemma NoTruncation(data: string, prev: string)
    requires |data| <= 255 && |prev| <= 64
    ensures HashInput(data, prev) == data + prev
  {
  }

  function Predecessor(recs: seq<Record>, i: nat): string
    requires i <= |recs|
  {
    if i == 0 then "" else recs[i - 1].hash
  }

  /** The stored hash of block i is the hash of its data and its predecessor's hash. */
  predicate Checks(h: string -> Digest, recs: seq<Record>, i: nat)
    requires i < |recs|
  {
    recs[i].hash == h(HashInput(recs[i].data, Predecessor(recs, i)))
  }

  /** The verdict of validate_blockchain. */
  predicate Accepts(h: string -> Digest, recs: seq<Record>) {
    forall i :: 0 <= i < |recs| ==> Checks(h, recs, i)
  }

  /** The first n blocks with their previous_hash rewritten from the walk. */
  ghost function Relinked(recs: seq<Record>, n: nat): seq<Record>
    requires n <= |recs|
  {
    seq(|recs|, i requires 0 <= i < |recs| =>
      if i < n then recs[i].(prev := Predecessor(recs, i)) else recs[i])
  }

  /** Data and hashes agree; previous_hash may differ. */
  ghost predicate SameButLinks(recs: seq<Record>, recs': seq<Record>) {
    |recs| == |recs'| &&
    forall i :: 0 <= i < |recs| ==> recs[i].data == recs'[i].data && recs[i].hash == recs'[i].hash
  }

  lemma CheckIgnoresLinks(h: string -> Digest, recs: seq<Record>, recs': seq<Record>, i: nat)
    requires SameButLinks(recs, recs') && i < |recs|
    ensures Checks(h, recs, i) <==> Checks(h, recs', i)
  {
  }

  /** The verdict does not depend on any stored previous_hash. */
  lemma VerdictIgnoresLinks(h: string -> Digest, recs: seq<Record>, recs': seq<Record>)
    requires SameButLinks(recs, recs')
    ensures Accepts(h, recs) <==> Accepts(h, recs')
  {
    hide Checks, SameButLinks;
    SameLength(recs, recs');
    forall i | 0 <= i < |recs|
      ensures Checks(h, recs, i) <==> Checks(h, recs', i)
    {
      CheckIgnoresLinks(h, recs, recs', i);
    }
  }

  lemma SameLength(recs: seq<Record>, recs': seq<Record>)
    requires SameButLinks(recs, recs')
    ensures |recs| == |recs'|
  {
  }

  lemma SameData(recs: seq<Record>, recs': seq<Record>, i: nat)
    requires SameButLinks(recs, recs') && i < |recs|
    ensures recs[i].data == recs'[i].data
  {
  }

  /** Validation never changes data or hashes, so validating again gives the same verdict. */
  lemma RelinkingKeepsVerdict(h: string -> Digest, recs: seq<Record>, n: nat)
    requires n <= |recs|
    ensures SameButLinks(recs, Relinked(recs, n))
    ensures Accepts(h, recs) <==> Accepts(h, Relinked(recs, n))
  {
    VerdictIgnoresLinks(h, recs, Relinked(recs, n));
  }

  // ---------------------------------------------------------------- tamper evidence

  ghost predicate WellSized(recs: seq<Record>) {
    forall i :: 0 <= i < |recs| ==> |recs[i].data| <= DATA_MAX && |recs[i].hash| == 64
  }

  /** Two accepted chains of the same length with the same last hash carry the same
      data everywhere, or x and y are two different inputs with one digest. */
  lemma {:induction false} LastHashDeterminesData(h: string -> Digest, a: seq<Record>, b: seq<Record>)
    returns (same: bool, x: string, y: string)
    requires |a| == |b| > 0 && WellSized(a) && WellSized(b) && Accepts(h, a) && Accepts(h, b)
    requires a[|a| - 1].hash == b[|b| - 1].hash
    ensures same ==> forall i :: 0 <= i < |a| ==> a[i].data == b[i].data && a[i].hash == b[i].hash
    ensures !same ==> x != y && h(x) == h(y)
    decreases |a|
  {
    var n := |a| - 1;
    assert Checks(h, a, n) && Checks(h, b, n);
    var pa, pb := Predecessor(a, n), Predecessor(b, n);
    NoTruncation(a[n].data, pa);
    NoTruncation(b[n].data, pb);
    x, y := a[n].data + pa, b[n].data + pb;
    if x != y {
      same := false;
    } else {
      SameTail(a[n].data, pa, b[n].data, pb);
      same := true;
      if n > 0 {
        PrefixAccepted(h, a, n);
        PrefixAccepted(h, b, n);
        same, x, y := LastHashDeterminesData(h, a[..n], b[..n]);
        if same {
          forall i | 0 <= i < |a|
            ensures a[i].data == b[i].data && a[i].hash == b[i].hash
          {
            if i < n { assert a[..n][i].data == b[..n][i].data; }
          }
        }
      }
    }
  }

  lemma SameTail(x: string, p: string, y: string, q: string)
    requires x + p == y + q && |p| == |q|
    ensures x == y && p == q
  {
    assert |x| == |y|;
    assert x == (x + p)[..|x|] && y == (y + q)[..|y|];
    assert p == (x + p)[|x|..] && q == (y + q)[|y|..];
  }

  lemma PrefixAccepted(h: string -> Digest, recs: seq<Record>, n: nat)
    requires n <= |recs| && Accepts(h, recs)
    ensures Accepts(h, recs[..n])
  {
    forall i | 0 <= i < n
      ensures Checks(h, recs[..n], i)
    {
      assert Checks(h, recs, i);
    }
  }

  /** The equal lengths matter: data and hash are joined without a separator, so two
      blocks can be folded into one with the same last hash. */
  lemma LengthsMatter(h: string -> Digest, d1: string, d2: string)
    requires |d1| <= DATA_MAX && |d2| + 64 <= DATA_MAX
    ensures
      var a := StoreAll(h, [d1, d2]);
      var b := StoreAll(h, [d2 + h(d1)]);
      && |a| == 2 && |b| == 1 && Accepts(h, a) && Accepts(h, b) && a[1].hash == b[0].hash
  {
    var a, b := StoreAll(h, [d1, d2]), StoreAll(h, [d2 + h(d1)]);
    assert d1 + "" == d1 && d2 + h(d1) + "" == d2 + h(d1);
    assert StoreAll(h, []) == [];
    assert [d1, d2][..1] == [d1] && [d1][..0] == [] && [d2 + h(d1)][..0] == [];
    assert StoreAll(h, [d1]) == [NewRecord(h, [], d1)];
    assert b == [NewRecord(h, [], d2 + h(d1))];
    assert a == [NewRecord(h, [], d1), NewRecord(h, StoreAll(h, [d1]), d2)];
    forall i | 0 <= i < 2 ensures Checks(h, a, i) { }
    assert Checks(h, b, 0);
  }

  // ---------------------------------------------------------------- what the server stores

  /** The record store_data builds: linked to the hash of the head, not of the tail. */
  function NewRecord(h: string -> Digest, recs: seq<Record>, payload: string): Record {
    var data := Cut(payload, DATA_MAX);
    var prev := if |recs| == 0 then "" else Cut(recs[0].hash, 64);
    Record(data, h(HashInput(data, prev)), prev)
  }

  /** The records after storing all payloads into an empty chain. */
  ghost function StoreAll(h: string -> Digest, payloads: seq<string>): seq<Record>
    decreases |payloads|
  {
    if |payloads| == 0 then [] else
    var recs := StoreAll(h, payloads[..|payloads| - 1]);
    recs + [NewRecord(h, recs, payloads[|payloads| - 1])]
  }

  /** Every stored block holds its own payload, hashed with the first block's hash. */
  lemma {:induction false} StoredBlock(h: string -> Digest, payloads: seq<string>, k: nat)
    requires k < |payloads|
    ensures |StoreAll(h, payloads)| == |payloads|
    ensures
      var recs, data := StoreAll(h, payloads), Cut(payloads[k], DATA_MAX);
      recs[k].data == data && recs[k].hash == h(data + if k == 0 then "" else recs[0].hash)
    decreases |payloads|
  {
    var n := |payloads| - 1;
    var recs := StoreAll(h, payloads[..n]);
    if n > 0 {
      StoredBlock(h, payloads[..n], if k < n then k else 0);
      StoredBlock(h, payloads[..n], 0);
    }
    NoTruncation(Cut(payloads[n], DATA_MAX), if |recs| == 0 then "" else Cut(recs[0].hash, 64));
  }

  /** In numbers: a block holds its payload whole up to 255 characters, otherwise the
      first 255, and names the first block's hash as its previous one. */
  lemma {:induction false} StoredData(h: string -> Digest, payloads: seq<string>, k: nat)
    requires k < |payloads|
    ensures |StoreAll(h, payloads)| == |payloads|
    ensures
      var rec := StoreAll(h, payloads)[k];
      && (if |payloads[k]| <= 255 then rec.data == payloads[k] else |rec.data| == 255 && rec.data <= payloads[k])
      && rec.prev == if k == 0 then "" else StoreAll(h, payloads)[0].hash
    decreases |payloads|
  {
    hide HashInput;
    var n := |payloads| - 1;
    if n > 0 {
      StoredBlock(h, payloads[..n], 0);
      StoredData(h, payloads[..n], if k < n then k else 0);
    }
    StoredBlock(h, payloads, k);
  }

  ghost predicate SameDigest(h: string -> Digest, recs: seq<Record>, k: nat)
    requires 0 < k < |recs|
  {
    h(recs[k].data + recs[0].hash) == h(recs[k].data + recs[k - 1].hash)
  }

  lemma CheckOfStored(h: string -> Digest, payloads: seq<string>, k: nat)
    requires k < |payloads|
    ensures |StoreAll(h, payloads)| == |payloads|
    ensures
      var recs := StoreAll(h, payloads);
      Checks(h, recs, k) <==> k == 0 || SameDigest(h, recs, k)
  {
    var recs := StoreAll(h, payloads);
    StoredBlock(h, payloads, k);
    if k > 0 { StoredBlock(h, payloads, k - 1); }
    NoTruncation(recs[k].data, Predecessor(recs, k));
    assert recs[k].data + "" == recs[k].data;
  }

  /** The exact verdict after any run of stores: from the third block on, hashing the
      data with the first hash and with the predecessor's hash must agree. */
  lemma VerdictAfterStores(h: string -> Digest, payloads: seq<string>)
    ensures |StoreAll(h, payloads)| == |payloads|
    ensures
      var recs := StoreAll(h, payloads);
      Accepts(h, recs) <==> forall k :: 2 <= k < |recs| ==> SameDigest(h, recs, k)
  {
    hide Checks, SameDigest;
    var recs := StoreAll(h, payloads);
    forall k | 0 <= k < |payloads|
      ensures k < |recs| == |payloads| && (Checks(h, recs, k) <==> k == 0 || SameDigest(h, recs, k))
    {
      CheckOfStored(h, payloads, k);
    }
    if |recs| > 1 { SecondAlwaysChecks(h, recs); }
  }

  lemma SecondAlwaysChecks(h: string -> Digest, recs: seq<Record>)
    requires |recs| > 1
    ensures SameDigest(h, recs, 1)
  {
  }

  /** Up to two blocks are always accepted. */
  lemma ShortChainsAccepted(h: string -> Digest, payloads: seq<string>)
    requires |payloads| <= 2
    ensures Accepts(h, StoreAll(h, payloads))
  {
    VerdictAfterStores(h, payloads);
  }

  /** From three blocks on, acceptance means two different hash inputs with one
      digest, or a first payload that ends in its own digest. */
  lemma LongChainsNeedCollisions(h: string -> Digest, payloads: seq<string>) returns (x: string, y: string)
    requires |payloads| >= 3 && Accepts(h, StoreAll(h, payloads))
    ensures
      var d := Cut(payloads[0], DATA_MAX);
      (x != y && h(x) == h(y)) || d == Cut(payloads[1], DATA_MAX) + h(d)
  {
    var recs := StoreAll(h, payloads);
    VerdictAfterStores(h, payloads);
    StoredBlock(h, payloads, 0);
    StoredBlock(h, payloads, 1);
    StoredBlock(h, payloads, 2);
    assert SameDigest(h, recs, 2);
    assert recs[0].data + "" == recs[0].data;
    if recs[0].hash != recs[1].hash {
      x, y := recs[2].data + recs[0].hash, recs[2].data + recs[1].hash;
      if x == y { SameTail(recs[2].data, recs[0].hash, recs[2].data, recs[1].hash); }
    } else {
      x, y := recs[0].data, recs[1].data + recs[0].hash;
    }
  }

  /** The documented intent fails for every hash: three or more stores whose first
      payload is shorter than a digest are rejected, or x and y collide. */
  lemma PlainChainsRejected(h: string -> Digest, payloads: seq<string>) returns (x: string, y: string)
    requires |payloads| >= 3 && |payloads[0]| < 64
    ensures !Accepts(h, StoreAll(h, payloads)) || (x != y && h(x) == h(y))
  {
    hide Accepts, StoreAll;
    x, y := "", "";
    if Accepts(h, StoreAll(h, payloads)) {
      x, y := LongChainsNeedCollisions(h, payloads);
    }
  }

  /** A toy hash that looks at the last character only. */
  function LastCharacterHash(s: string): Digest {
    seq(64, _ => if |s| > 0 && s[|s| - 1] == '0' then '1' else '0')
  }

  /** With this hash three plain stores are rejected. */
  lemma SomeChainIsRejected()
    ensures !Accepts(LastCharacterHash, StoreAll(LastCharacterHash, ["a", "b", "c"]))
  {
    var h, payloads := LastCharacterHash, ["a", "b", "c"];
    var recs := StoreAll(h, payloads);
    VerdictAfterStores(h, payloads);
    StoredBlock(h, payloads, 0);
    StoredBlock(h, payloads, 1);
    StoredBlock(h, payloads, 2);
    var zeros, ones := h("a"), h("0");
    assert recs[0].data + "" == "a";
    assert ("b" + zeros)[64] == '0' && ("c" + zeros)[64] == '0' && ("c" + ones)[64] == '1';
    assert recs[0].hash == zeros && recs[1].hash == ones;
    assert !SameDigest(h, recs, 2);
  }

  // ---------------------------------------------------------------- the linked list

  class Block {
    var data: string
    var hash: string
    var previous_hash: string
    var next: Block?

    constructor (data: string)
      ensures this.data == data && this.next == null
    {
      this.data, this.hash, this.previous_hash, this.next := data, "", "", null;
    }

    ghost function Value(): Record
      reads this
    {
      Record(data, hash, previous_hash)
    }

    /** compute_hash: returns the digest and overwrites previous_hash on the way. */
    method ComputeHash(h: string -> Digest, prev: string) returns (digest: Digest)
      requires |prev| <= 64
      modifies this`previous_hash
      ensures digest == h(HashInput(data, prev)) && previous_hash == prev
    {
      digest := h(HashInput(data, prev));
      previous_hash := Cut(prev, 64);
    }
  }

  /** The list of one server. */
  class Chain {
    const h: string -> Digest
    var head: Block?
    ghost var blocks: seq<Block>
    ghost var recs: seq<Record>
    ghost var repr: set<object>

    ghost predicate Linked()
      reads this, repr
    {
      && this in repr && |recs| == |blocks|
      && (forall i :: 0 <= i < |blocks| ==> blocks[i] in repr)
      && head == (if |blocks| == 0 then null else blocks[0])
      && (|blocks| > 0 ==> blocks[|blocks| - 1].next == null)
      && (forall i :: 0 <= i < |blocks| - 1 ==> blocks[i].next == blocks[i + 1])
      && (forall i, j :: 0 <= i < j < |blocks| ==> blocks[i] != blocks[j])
      && (forall i :: 0 <= i < |blocks| ==> recs[i] == blocks[i].Value())
    }

    ghost predicate Valid()
      reads this, repr
    {
      Linked() && WellSized(recs)
    }

    constructor (h: string -> Digest)
      ensures Valid() && recs == [] && this.h == h && fresh(repr)
    {
      this.h := h;
      head := null;
      blocks, recs, repr := [], [], {this};
    }

    /** The current block is hashed with what the walk expects before it. */
    method Visit(current: Block, expected: string, ghost i: nat) returns (calculated: Digest)
      requires Linked() && i < |blocks| && current == blocks[i] && |expected| <= 64
      modifies current`previous_hash, this`recs
      ensures Linked() && recs == old(recs)[i := old(recs)[i].(prev := expected)]
      ensures calculated == h(HashInput(recs[i].data, expected))
      ensures current.previous_hash == expected && current.hash == recs[i].hash
      ensures current.next == if i + 1 < |blocks| then blocks[i + 1] else null
    {
      calculated := current.ComputeHash(h, expected);
      recs := recs[i := current.Value()];
    }

    /** validate_blockchain: the verdict, and the walked blocks with rewritten links.
        The walk stops after the first block that does not check, if there is one. */
    method Validate() returns (ok: bool, ghost walked: nat)
      requires Valid()
      modifies repr
      ensures Valid() && repr == old(repr) && blocks == old(blocks) && head == old(head)
      ensures ok == Accepts(h, old(recs)) && SameButLinks(old(recs), recs)
      ensures walked <= |old(recs)| && recs == Relinked(old(recs), walked)
      ensures ok ==> walked == |recs|
      ensures !ok ==> 0 < walked && !Checks(h, old(recs), walked - 1)
      ensures !ok ==> forall k :: 0 <= k < walked - 1 ==> Checks(h, old(recs), k)
    {
      hide WellSized, Checks, Accepts, Relinked, HashInput, SameButLinks;
      var current := head;
      var expected := "";
      ghost var i: nat := 0;
      ghost var recs0 := recs;
      RelinkStart(recs0);
      while current != null
        invariant 0 <= i <= |blocks| && blocks == old(blocks) && repr == old(repr) && head == old(head)
        invariant Linked() && current == if i < |blocks| then blocks[i] else null
        invariant |recs0| == |blocks| && expected == Predecessor(recs0, i) && |expected| <= 64
        invariant forall k :: 0 <= k < i ==> Checks(h, recs0, k)
        invariant recs == Relinked(recs0, i)
        decreases |blocks| - i
      {
        var calculated := Visit(current, expected, i);
        RelinkStep(h, recs0, i);
        i := i + 1;
        if current.hash != calculated {
          Rejected(h, recs0, i - 1);
          RelinkSizes(recs0, i);
          return false, i;
        }
        if current != head && current.previous_hash != expected {
          assert false;
          return false, i;
        }
        expected := Cut(current.hash, 64);
        current := current.next;
      }
      AcceptedIntro(h, recs0);
      RelinkSizes(recs0, i);
      return true, i;
    }

    /** The end of the list. */
    method Last() returns (last: Block)
      requires Linked() && |blocks| > 0
      ensures last == blocks[|blocks| - 1]
    {
      last := head;
      ghost var i := 0;
      while last.next != null
        invariant 0 <= i < |blocks| && last == blocks[i]
        invariant i < |blocks| - 1 ==> last.next == blocks[i + 1]
        decreases |blocks| - i
      {
        last := last.next;
        i := i + 1;
      }
    }

    /** Hangs a finished block at the end of the list. */
    method Append(block: Block)
      requires Linked() && block !in repr && block.next == null
      modifies repr
      ensures Linked() && repr == old(repr) + {block}
      ensures blocks == old(blocks) + [block] && recs == old(recs) + [block.Value()]
      ensures block.Value() == old(block.Value())
    {
      if head == null {
        head := block;
      } else {
        var current := Last();
        current.next := block;
      }
      blocks, recs, repr := blocks + [block], recs + [block.Value()], repr + {block};
    }

    /** The new block of store_data, not yet in the list. */
    method MakeBlock(payload: string) returns (block: Block)
      requires Valid()
      ensures fresh(block) && block.next == null && block.Value() == NewRecord(h, recs, payload)
      ensures block.data <= payload && |block.data| == if |payload| <= 255 then |payload| else 255
    {
      hide HashInput;
      block := new Block(Cut(payload, DATA_MAX));
      var previous_hash := "";
      if head != null {
        previous_hash := Cut(head.hash, 64);
      }
      var computed := block.ComputeHash(h, previous_hash);
      block.hash := Cut(computed, 64);
    }

    /** store_data: the new block, and the verdict of the validation that follows, with
        the links that validation has rewritten up to where it stopped. */
    method Store(payload: string) returns (ok: bool, ghost walked: nat)
      requires Valid()
      modifies repr
      ensures Valid() && fresh(repr - old(repr))
      ensures SameButLinks(old(recs) + [NewRecord(h, old(recs), payload)], recs)
      ensures |recs| == |old(recs)| + 1 && recs[|old(recs)|].data <= payload
      ensures |recs[|old(recs)|].data| == if |payload| <= 255 then |payload| else 255
      ensures ok == Accepts(h, recs)
      ensures ok ==> forall i :: 0 <= i < |recs| ==> recs[i].prev == Predecessor(recs, i)
      ensures walked <= |recs| && recs == Relinked(old(recs) + [NewRecord(h, old(recs), payload)], walked)
      ensures if ok then walked == |recs| else 0 < walked && !Checks(h, recs, walked - 1)
    {
      hide Accepts, NewRecord, SameButLinks, Relinked, WellSized, Checks;
      var new_block := MakeBlock(payload);
      NewRecordFits(h, recs, payload);
      Append(new_block);
      ghost var recs1 := recs;
      ok, walked := Validate();
      VerdictIgnoresLinks(h, recs1, recs);
      LinksAfterWalk(recs1);
      SameLength(recs1, recs);
      SameData(recs1, recs, |recs| - 1);
      if !ok { CheckIgnoresLinks(h, recs1, recs, walked - 1); }
    }

    /** The walk that lists every block. */
    method Collect() returns (list: seq<Record>)
      requires Linked()
      ensures list == recs
    {
      list := [];
      var current := head;
      while current != null
        invariant |list| <= |blocks| && list == recs[..|list|]
        invariant current == if |list| < |blocks| then blocks[|list|] else null
        decreases |blocks| - |list|
      {
        assert recs[|list|] == current.Value();
        list := list + [Record(current.data, current.hash, current.previous_hash)];
        current := current.next;
      }
    }

    /** retrieve_data: all blocks, or a refusal when validation fails. */
    method Retrieve() returns (answer: Answer)
      requires Valid()
      modifies repr
      ensures Valid() && repr == old(repr) && SameButLinks(old(recs), recs)
      ensures answer == Listing(h, old(recs), recs)
      ensures answer.Blocks? ==> forall i :: 0 <= i < |recs| ==> recs[i].prev == Predecessor(recs, i)
    {
      hide Accepts, WellSized, SameButLinks, Relinked, Checks;
      LinksAfterWalk(recs);
      var ok, walked := Validate();
      if !ok {
        return Refused;
      }
      var list := Collect();
      return Blocks(list);
    }
  }

  /** The answer to a retrieval, given the blocks before and after its validation. */
  function Listing(h: string -> Digest, before: seq<Record>, after: seq<Record>): Answer {
    if Accepts(h, before) then Blocks(after) else Refused
  }

  /** What a server sends back; an empty list of blocks stands for NO_DATA. */
  datatype Answer = Refused | Blocks(recs: seq<Record>) | DataStored

  /** Storing one more payload follows StoreAll, whatever the links have become. */
  lemma StoreFollows(h: string -> Digest, payloads: seq<string>, recs: seq<Record>, payload: string)
    requires SameButLinks(StoreAll(h, payloads), recs)
    ensures SameButLinks(StoreAll(h, payloads + [payload]), recs + [NewRecord(h, recs, payload)])
  {
    var all := payloads + [payload];
    assert all[..|all| - 1] == payloads;
    var before := StoreAll(h, payloads);
    assert StoreAll(h, all) == before + [NewRecord(h, before, payload)];
    assert |recs| > 0 ==> recs[0].hash == before[0].hash;
    assert NewRecord(h, recs, payload) == NewRecord(h, before, payload);
  }

  lemma NewRecordFits(h: string -> Digest, recs: seq<Record>, payload: string)
    requires WellSized(recs)
    ensures WellSized(recs + [NewRecord(h, recs, payload)])
  {
    hide HashInput;
  }

  /** After a complete walk every link names the predecessor's hash. */
  lemma LinksAfterWalk(recs: seq<Record>)
    ensures |Relinked(recs, |recs|)| == |recs|
    ensures forall i :: 0 <= i < |recs| ==>
      Relinked(recs, |recs|)[i].prev == Predecessor(Relinked(recs, |recs|), i)
  {
  }

  lemma RelinkStart(recs: seq<Record>)
    ensures Relinked(recs, 0) == recs
  {
  }

  lemma RelinkStep(h: string -> Digest, recs: seq<Record>, i: nat)
    requires i < |recs| && WellSized(recs)
    ensures |Relinked(recs, i)| == |recs|
    ensures
      var r := Relinked(recs, i)[i];
      && r == recs[i] && |r.hash| == 64 && Cut(r.hash, 64) == r.hash
      && Relinked(recs, i)[i := r.(prev := Predecessor(recs, i))] == Relinked(recs, i + 1)
      && (r.hash == h(HashInput(r.data, Predecessor(recs, i))) <==> Checks(h, recs, i))
  {
  }

  lemma RelinkSizes(recs: seq<Record>, n: nat)
    requires n <= |recs| && WellSized(recs)
    ensures WellSized(Relinked(recs, n)) && SameButLinks(recs, Relinked(recs, n))
  {
  }

  lemma Rejected(h: string -> Digest, recs: seq<Record>, i: nat)
    requires i < |recs| && !Checks(h, recs, i)
    ensures !Accepts(h, recs)
  {
  }

  lemma AcceptedIntro(h: string -> Digest, recs: seq<Record>)
    requires forall k :: 0 <= k < |recs| ==> Checks(h, recs, k)
    ensures Accepts(h, recs)
  {
  }
}
