/** Insert into and delete from the trie of IPv4 prefixes (lib/bitmap_v4.c): an address is a
    32-bit word, shifted left by a stride at each level. */
module BitmapV4 {
  import opened Addresses
  import opened Trees
  import opened Memory
  import opened Shapes
  import opened MbNode
  import opened Usage
  import opened Spine
  import opened Walk
  import opened Insertion
  import opened Deletion

  /** (LENGTH / STRIDE) + 1. */
  const UPDATE_LEVEL: nat := 6

  /** The depth of the tries fits the trace. */
  lemma {:induction false} Depth(cidr: nat)
    requires cidr <= LENGTH
    ensures cidr <= MAX_KEY && cidr < 6 * UPDATE_LEVEL
  {
  }

  /** bitmap_insert_prefix: map update on the trie, in place. */
  method InsertPrefix(root: Ptr, m: Mm, ip0: U32, cidr0: nat, nhi: Nhi, ghost s: Shape)
    returns (r: int, ghost s': Shape)
    requires Owned(m, root, s, 0) && Packed(Data(s)) && cidr0 <= LENGTH && HostZero(ip0, cidr0)
    modifies m.Repr(), root.arr, Foot(s)
    ensures Owned(m, root, s', 0) && OthersKept(root, old(root.arr[..])) && fresh(Foot(s') - Foot(s))
    ensures Data(s') == InsertT(Data(s), Key(ip0, cidr0), nhi)
    ensures r == if Get(Data(s), Key(ip0, cidr0)).Some? then 1 else 0
    ensures Follows(old(m.units), m.units, Data(s), Data(s')) && old(m.used) - Foot(s) <= m.used
  {
    hide *;
    var node, ip: U32, cidr: nat, level: nat := root, ip0, cidr0, 0;
    ghost var t0, key, u, was := Data(s), Key(ip0, cidr0), m.units, root.arr[..];
    ghost var fs: seq<Frame>, f := [], s;
    ghost var own := FootObjects(s);
    KeyWords(ip, cidr);
    Depth(cidr);
    InsertStarts(root, m, key, nhi, s);
    while cidr >= STRIDE
      invariant old(m.used) - Foot(s) <= m.used
      invariant AllSound(fs) && fresh(own - Foot(s)) && cidr <= LENGTH && HostZero(ip, cidr)
      invariant InsertState(root, m, node, Key(ip, cidr), level, nhi, fs, f, t0, key, u, was, own)
    {
      KeyWords(ip, cidr);
      var stride := Shr32(ip, LENGTH - STRIDE);
      ghost var mine := own;
      label before:
      node, fs, f, own := InsertPass(root, m, node, stride, level, Key(ip, cidr), nhi, fs, f, t0, key, u, was, own);
      forall o | o in own && o !in Foot(s) ensures fresh(o) {
        if o !in mine { assert fresh@before(o); }
      }
      forall o | o in old(m.used) && o !in Foot(s) ensures o in m.used {
        assert o !in mine - Foot(s);
      }
      cidr := cidr - STRIDE;
      ip := Shl32(ip, STRIDE);
      level := level + 1;
    }
    KeyWords(ip, cidr);
    var pos := CountInlBitmap(Shr32(ip, LENGTH - cidr), cidr);
    ghost var mine := own;
    label last:
    r, s', own := InsertFinal(root, m, node, pos, level, nhi, Key(ip, cidr), fs, f, t0, key, u, was, own);
    forall o | o in own && o !in Foot(s) ensures fresh(o) {
      if o !in mine { assert fresh@last(o); }
    }
    forall o | o in old(m.used) && o !in Foot(s) ensures o in m.used {
      assert o !in mine - Foot(s);
    }
  }

  /** The way down. */
  method Descend(root: Ptr, m: Mm, t: array<Trace>, ip0: U32, cidr0: nat, ghost s: Shape, ghost key: Bits)
    returns (node: Ptr, ip: U32, cidr: nat, i: nat, ghost fs: seq<Frame>, ghost f: Shape)
    requires cidr0 <= LENGTH && HostZero(ip0, cidr0) && key == Key(ip0, cidr0)
    requires AllSound([]) && DeleteState(root, m, root, key, 0, t[..], [], s, key, Data(s), Foot(s))
    requires t !in m.Repr() + {root.arr} + Foot(s)
    modifies t
    ensures AllSound(fs) && cidr < STRIDE && cidr <= LENGTH && HostZero(ip, cidr)
    ensures DeleteState(root, m, node, Key(ip, cidr), i, t[..], fs, f, key, Data(s), Foot(s))
  {
    hide *;
    node, ip, cidr, i, fs, f := root, ip0, cidr0, 0, [], s;
    while cidr >= STRIDE
      invariant AllSound(fs) && cidr <= LENGTH && HostZero(ip, cidr)
      invariant DeleteState(root, m, node, Key(ip, cidr), i, t[..], fs, f, key, Data(s), Foot(s))
    {
      KeyWords(ip, cidr);
      var stride := Shr32(ip, LENGTH - STRIDE);
      node, fs, f := DescendPass(root, m, t, i, node, stride, Key(ip, cidr), fs, f, key, Data(s), Foot(s));
      cidr := cidr - STRIDE;
      ip := Shl32(ip, STRIDE);
      i := i + 1;
    }
  }

  /** bitmap_delete_prefix: removes exactly one key of the map; `calls` are the calls of destroy_nhi. */
  method DeletePrefix(root: Ptr, m: Mm, ip0: U32, cidr0: nat, notify: bool, ghost s: Shape)
    returns (r: int, calls: seq<Nhi>, ghost s': Shape)
    requires Owned(m, root, s, 0) && Packed(Data(s)) && cidr0 <= LENGTH && HostZero(ip0, cidr0)
    requires Get(Data(s), Key(ip0, cidr0)).Some?
    modifies m.Repr(), root.arr, Foot(s)
    ensures Owned(m, root, s', 0) && OthersKept(root, old(root.arr[..])) && fresh(Foot(s') - Foot(s))
    ensures Data(s') == DeleteT(Data(s), Key(ip0, cidr0))
    ensures r == if Empty(Data(s')) then 1 else 0
    ensures Follows(old(m.units), m.units, Data(s), Data(s')) && old(m.used) - Foot(s) <= m.used
    ensures calls == if notify then [Get(Data(s), Key(ip0, cidr0)).value] else []
  {
    hide *;
    FootAlloc(s);
    ReprAlloc(m);
    KeyWords(ip0, cidr0);
    Depth(cidr0);
    var t := new Trace[UPDATE_LEVEL](_ => Trace(root, 0));
    ghost var key := Key(ip0, cidr0);
    DeleteStarts(root, m, key, t[..], s);
    var node, ip, cidr, i;
    ghost var fs, f;
    node, ip, cidr, i, fs, f := Descend(root, m, t, ip0, cidr0, s, key);
    KeyWords(ip, cidr);
    var pos := CountInlBitmap(Shr32(ip, LENGTH - cidr), cidr);
    var need;
    label before:
    need, calls, s' := DeleteLast(root, m, t, i, node, pos, notify, Key(ip, cidr), fs, f, key, Data(s), Foot(s));
    ghost var own' := FootObjects(s');
    forall o | o in own' && o !in Foot(s) ensures fresh(o) {
      assert fresh@before(o);
    }
    r := if need then 1 else 0;
  }
}
