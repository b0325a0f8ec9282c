/** Types and helpers shared by every part of the hashsnap model: bytes and
    digests, file kinds, Go's integer widths, the path join used when names are
    glued together, and the ways a Go program stops (panic, log.Fatal). */
module Base {

  newtype byte = x: int | 0 <= x < 256

  /** A SHA-1 digest, treated as an opaque 20-byte value. */
  type Hash = h: seq<byte> | |h| == 20 witness ZeroHash()

  /** A random UUID distinguishing one snapshot from any other. */
  type Nonce = u: seq<byte> | |u| == 16 witness ZeroNonce()

  function ZeroHash(): (h: seq<byte>)
    ensures |h| == 20
  {
    seq(20, _ => 0 as byte)
  }

  function ZeroNonce(): (u: seq<byte>)
    ensures |u| == 16
  {
    seq(16, _ => 0 as byte)
  }

  /** The part of fs.FileMode the program looks at: directories, regular files,
      and everything else (symbolic links, devices, sockets, ...). */
  datatype Kind = Dir | Regular | Other {
    predicate IsDir() { this == Dir }
    predicate IsRegular() { this == Regular }
  }

  datatype Option<+T> = None | Some(value: T)

  /** The value a Go function returns, or how it stopped instead. */
  datatype Outcome<+T> = Done(value: T) | Aborted(abort: Abort)

  /** A Go function's (value, error) result. */
  datatype Result<+T> = Ok(value: T) | Err(error: Error)

  /** What one Decode call on a stream yields: a value, or an error, io.EOF
      included. A stream is the sequence of these; reading past its end
      yields io.EOF, as a drained decoder does. */
  datatype Read<+T> = Got(value: T) | Failed(err: Error)

  /** Why a Go program stopped: a panic or a log.Fatal exit, with the reason. */
  datatype Abort = Panic(reason: Reason) | Fatal(reason: Reason)

  datatype Reason =
    | AlreadyAdded        // a node with that ID is already in the tree
    | NoRoot              // neither ID 0 nor ID 1 is in the tree
    | NilNode             // a nil node was passed
    | WrongTree           // the node belongs to another tree
    | MissingParent       // a parent on the chain is not in the tree
    | Collision           // same hash, different size
    | SelfTrim            // the reference tree has the current tree's nonce
    | NilDereference      // a nil pointer was dereferenced
    | IndexOutOfRange     // a slice was indexed past its end
    | BadVersion          // the header is not of format version 1
    | NextNotCalled       // Node() before any successful Next()
    | ParentIdUnset       // MakeNode on a parent whose ID is 0
    | RootLstatFailed     // the walk root cannot be lstat'ed
    | RelativePath        // the walk root is not absolute
    | ListingFailed       // a directory listing failed where that is fatal
    | PathUnavailable     // a node's Path() failed

  /** Go `error` values the model distinguishes. Causes coming from code that
      is not modelled (gob, the OS, callbacks) are opaque codes. */
  datatype Error =
    | Eof                                 // io.EOF
    | Io(code: nat)                       // an opaque decoder or OS error
    | Callback(code: nat)                 // an error returned by a caller's callback
    | ParentNotDecoded(id: nat)           // codec: parent has not been decoded yet
    | AtPos(pos: nat, cause: Error)       // iterator: cannot decode node at pos
    | NoParentSet(id: nat)                // Node.Path on a node without parent
    | LstatFailed(path: string)           // MakeNode: lstat failed
    | NotAbsolute(path: string)           // WalkFS: path should be absolute
    | LengthMismatch                      // Tree.IsOK: nodes and children differ in size
    | Unimplemented                       // Tree.IsOK: always

  const TWO63: int := 0x8000_0000_0000_0000
  const TWO64: int := 0x1_0000_0000_0000_0000

  predicate IsInt64(x: int) { -TWO63 <= x < TWO63 }
  predicate IsUint64(x: int) { 0 <= x < TWO64 }

  /** Two's-complement wrap-around of an int64 computation. */
  function WrapI64(x: int): (r: int)
    ensures IsInt64(r)
    ensures (r - x) % TWO64 == 0
    ensures IsInt64(x) ==> r == x
  {
    var m := x % TWO64;
    if m >= TWO63 then m - TWO64 else m
  }

  /** Wrap-around of a uint64 computation (and the uint64(x) conversion). */
  function WrapU64(x: int): (r: nat)
    ensures IsUint64(r)
    ensures (r - x) % TWO64 == 0
    ensures IsUint64(x) ==> r == x
  {
    x % TWO64
  }

  /** Numbers that agree modulo 2^64 wrap to the same int64 and uint64. */
  lemma SameResidue(a: int, b: int)
    requires (a - b) % TWO64 == 0
    ensures a % TWO64 == b % TWO64
    ensures WrapI64(a) == WrapI64(b) && WrapU64(a) == WrapU64(b)
  {
    var k := (a - b) / TWO64;
    assert a - b == k * TWO64;
    assert a == b + k * TWO64;
    ModShift(b, k);
  }

  lemma ModShift(b: int, k: int)
    ensures (b + k * TWO64) % TWO64 == b % TWO64
  {
  }

  /** Adding to a wrapped value wraps like adding to the exact one. */
  lemma WrapAdd(a: int, b: int)
    ensures WrapI64(WrapI64(a) + b) == WrapI64(a + b)
    ensures WrapU64(WrapU64(a) + b) == WrapU64(a + b)
  {
    assert (WrapI64(a) + b - (a + b)) % TWO64 == 0;
    SameResidue(WrapI64(a) + b, a + b);
    assert (WrapU64(a) + b - (a + b)) % TWO64 == 0;
    SameResidue(WrapU64(a) + b, a + b);
  }

  /** filepath.Join of two elements: empty elements are dropped and the rest
      are separated by one slash. The lexical clean-up Join also performs
      (collapsing `//`, `.` and `..`) is not modelled. */
  function Join(a: string, b: string): string
  {
    if a == "" then b else if b == "" then a else a + "/" + b
  }

  lemma JoinEndsWith(a: string, b: string)
    ensures EndsWith(Join(a, b), b)
  {
  }

  /** `suffix` is the tail of `s`. */
  predicate EndsWith(s: string, suffix: string)
  {
    |suffix| <= |s| && s[|s| - |suffix|..] == suffix
  }

  lemma EndsWithTransitive(s: string, m: string, x: string)
    requires EndsWith(s, m) && EndsWith(m, x)
    ensures EndsWith(s, x)
  {
    assert s[|s| - |x|..] == s[|s| - |m|..][|m| - |x|..];
  }

  lemma JoinAssociative(a: string, b: string, c: string)
    ensures Join(Join(a, b), c) == Join(a, Join(b, c))
  {
    if a != "" && b != "" && c != "" {
      assert (a + "/" + b) + "/" + c == a + "/" + (b + "/" + c);
    }
  }

  lemma JoinGrows(a: string, b: string)
    requires b != ""
    ensures |Join(a, b)| > |a|
  {
  }

  /** `order` lists every key of a Go map exactly once: the order in which a
      `range` over that map happened to visit them. */
  predicate Enumerates<K>(order: seq<K>, keys: set<K>)
  {
    && (forall i, j :: 0 <= i < j < |order| ==> order[i] != order[j])
    && (forall k :: k in keys ==> k in order)
    && (forall i :: 0 <= i < |order| ==> order[i] in keys)
  }

  /** An enumeration of a key set is as long as the set is large. */
  lemma OrderSize<K>(order: seq<K>, keys: set<K>)
    requires Enumerates(order, keys)
    ensures |order| == |keys|
  {
    if order != [] {
      var last := order[|order| - 1];
      var init := order[..|order| - 1];
      assert Enumerates(init, keys - {last}) by {
        forall k | k in keys - {last} ensures k in init {
          var i :| 0 <= i < |order| && order[i] == k;
        }
      }
      OrderSize(init, keys - {last});
    } else {
      assert keys == {};
    }
  }

  /** The values of a map, visited in the order `order` gives its keys. */
  function Values<K, V>(m: map<K, V>, order: seq<K>): (vs: seq<V>)
    requires forall i :: 0 <= i < |order| ==> order[i] in m
    ensures |vs| == |order|
    ensures forall i :: 0 <= i < |order| ==> vs[i] == m[order[i]]
  {
    seq(|order|, i requires 0 <= i < |order| => m[order[i]])
  }

  lemma ValuesCover<K, V>(m: map<K, V>, order: seq<K>)
    requires Enumerates(order, m.Keys)
    ensures forall k :: k in m ==> m[k] in Values(m, order)
    ensures forall v :: v in Values(m, order) ==> v in m.Values
  {
    var vs := Values(m, order);
    forall k | k in m
      ensures m[k] in vs
    {
      var i :| 0 <= i < |order| && order[i] == k;
      assert vs[i] == m[k];
    }
  }

  /** The elements of `s` satisfying `p`, in order. */
  function Filter<T>(p: T -> bool, s: seq<T>): (r: seq<T>)
    ensures |r| <= |s|
    ensures forall x :: x in r ==> x in s && p(x)
    ensures forall x :: x in s && p(x) ==> x in r
    ensures forall i :: 0 <= i < |r| ==> p(r[i])
  {
    if s == [] then []
    else Filter(p, s[..|s| - 1]) + (if p(s[|s| - 1]) then [s[|s| - 1]] else [])
  }

  lemma FilterAppend<T>(p: T -> bool, s: seq<T>, x: T)
    ensures Filter(p, s + [x]) == Filter(p, s) + (if p(x) then [x] else [])
  {
    assert (s + [x])[..|s + [x]| - 1] == s;
  }

  /** `r` lists, ascending, exactly the positions of `s` whose elements pass
      `p`. */
  predicate ListsPositions<T>(p: T -> bool, s: seq<T>, r: seq<nat>)
  {
    && (forall k :: 0 <= k < |r| ==> r[k] < |s| && p(s[r[k]]))
    && (forall k, l :: 0 <= k < l < |r| ==> r[k] < r[l])
    && (forall i :: 0 <= i < |s| && p(s[i]) ==> i in r)
  }

  /** The positions of `s` whose elements pass `p`, ascending: every such
      position and no other. */
  function Positions<T>(p: T -> bool, s: seq<T>): (r: seq<nat>)
    ensures ListsPositions(p, s, r)
  {
    if s == [] then []
    else
      var r0 := Positions(p, s[..|s| - 1]);
      PositionsExtend(p, s, r0);
      r0 + (if p(s[|s| - 1]) then [|s| - 1] else [])
  }

  lemma PositionsExtend<T>(p: T -> bool, s: seq<T>, r0: seq<nat>)
    requires s != [] && ListsPositions(p, s[..|s| - 1], r0)
    ensures ListsPositions(p, s, r0 + (if p(s[|s| - 1]) then [|s| - 1] else []))
  {
    var init, last := s[..|s| - 1], |s| - 1;
    var r := r0 + (if p(s[last]) then [last] else []);
    forall k | 0 <= k < |r| ensures r[k] < |s| && p(s[r[k]]) {
      if k < |r0| {
        assert r[k] == r0[k] && s[r0[k]] == init[r0[k]];
      }
    }
    forall i | 0 <= i < |s| && p(s[i]) ensures i in r {
      if i < last {
        assert init[i] == s[i];
        assert i in r0;
      } else {
        assert r[|r| - 1] == last;
      }
    }
  }

  /** `sub` is `s` read at the positions `idx`, in that order. */
  ghost predicate ReadAt<T>(sub: seq<T>, s: seq<T>, idx: seq<nat>)
  {
    |sub| == |idx| && forall k :: 0 <= k < |idx| ==> idx[k] < |s| && sub[k] == s[idx[k]]
  }

  /** Filtering keeps the passing elements in the order they had: it reads
      the sequence at exactly the passing positions, ascending. */
  lemma {:induction false} FilterAtPositions<T>(p: T -> bool, s: seq<T>)
    ensures ReadAt(Filter(p, s), s, Positions(p, s))
  {
    if s != [] {
      var init, x := s[..|s| - 1], s[|s| - 1];
      FilterAtPositions(p, init);
      assert s == init + [x];
      FilterAppend(p, init, x);
      var f, q := Filter(p, s), Positions(p, s);
      var f0, q0 := Filter(p, init), Positions(p, init);
      forall k | 0 <= k < |q| ensures q[k] < |s| && f[k] == s[q[k]] {
        if k < |q0| {
          assert q[k] == q0[k] && f[k] == f0[k];
          assert s[q0[k]] == init[q0[k]];
        }
      }
    }
  }

  /** The negation of a test. */
  function Not<T>(p: T -> bool): T -> bool
  {
    x => !p(x)
  }

  /** Filtering by a test and by its negation partitions a sequence. */
  lemma {:induction false} FilterSplit<T>(p: T -> bool, s: seq<T>)
    ensures multiset(Filter(p, s)) + multiset(Filter(Not(p), s)) == multiset(s)
    ensures |Filter(p, s)| + |Filter(Not(p), s)| == |s|
  {
    if s != [] {
      var init := s[..|s| - 1];
      var x := s[|s| - 1];
      FilterSplit(p, init);
      assert s == init + [x];
      FilterSplitStep(p, init, x);
    }
  }

  lemma FilterSplitStep<T>(p: T -> bool, s: seq<T>, x: T)
    ensures multiset(Filter(p, s + [x])) + multiset(Filter(Not(p), s + [x])) ==
      multiset(Filter(p, s)) + multiset(Filter(Not(p), s)) + multiset{x}
    ensures |Filter(p, s + [x])| + |Filter(Not(p), s + [x])| == |Filter(p, s)| + |Filter(Not(p), s)| + 1
  {
    FilterAppend(p, s, x);
    FilterAppend(Not(p), s, x);
  }

  lemma {:induction false} FilterConcat<T>(p: T -> bool, a: seq<T>, b: seq<T>)
    ensures Filter(p, a + b) == Filter(p, a) + Filter(p, b)
    decreases |b|
  {
    if b == [] {
      assert a + b == a;
    } else {
      var init, x := b[..|b| - 1], b[|b| - 1];
      var t := if p(x) then [x] else [];
      assert b == init + [x];
      assert a + b == (a + init) + [x];
      FilterConcat(p, a, init);
      FilterAppend(p, a + init, x);
      FilterAppend(p, init, x);
      calc {
        Filter(p, a + b);
        Filter(p, a + init) + t;
        (Filter(p, a) + Filter(p, init)) + t;
        Filter(p, a) + (Filter(p, init) + t);
        Filter(p, a) + Filter(p, b);
      }
    }
  }

  /** Filtering keeps a sequence whose elements all pass. */
  lemma {:induction false} FilterAll<T>(p: T -> bool, s: seq<T>)
    requires forall i :: 0 <= i < |s| ==> p(s[i])
    ensures Filter(p, s) == s
  {
    if s != [] {
      var init, x := s[..|s| - 1], s[|s| - 1];
      forall i | 0 <= i < |init| ensures p(init[i]) {
        assert init[i] == s[i];
      }
      FilterAll(p, init);
      assert s == init + [x];
      FilterAppend(p, init, x);
    }
  }

  /** Filtering empties a sequence whose elements all fail. */
  lemma {:induction false} FilterNone<T>(p: T -> bool, s: seq<T>)
    requires forall i :: 0 <= i < |s| ==> !p(s[i])
    ensures Filter(p, s) == []
  {
    if s != [] {
      var init := s[..|s| - 1];
      assert forall i :: 0 <= i < |init| ==> init[i] == s[i];
      FilterNone(p, init);
    }
  }

  /** Filtering the values of a map is filtering its keys first. */
  lemma {:induction false} FilterValues<K, V>(p: V -> bool, m: map<K, V>, order: seq<K>)
    requires forall i :: 0 <= i < |order| ==> order[i] in m
    ensures forall i :: 0 <= i < |Filter(KeyTest(p, m), order)| ==> Filter(KeyTest(p, m), order)[i] in m
    ensures Filter(p, Values(m, order)) == Values(m, Filter(KeyTest(p, m), order))
  {
    if order != [] {
      var init := order[..|order| - 1];
      var k := order[|order| - 1];
      var q := KeyTest(p, m);
      assert order == init + [k];
      FilterValues(p, m, init);
      ValuesAppend(m, init, k);
      FilterAppend(p, Values(m, init), m[k]);
      FilterAppend(q, init, k);
      if q(k) {
        ValuesAppend(m, Filter(q, init), k);
      } else {
        assert Filter(q, order) == Filter(q, init);
      }
    }
  }

  lemma ValuesAppend<K, V>(m: map<K, V>, order: seq<K>, k: K)
    requires forall i :: 0 <= i < |order| ==> order[i] in m
    requires k in m
    ensures Values(m, order + [k]) == Values(m, order) + [m[k]]
  {
  }

  /** The keys of `m` whose value passes `p`. */
  function KeyTest<K, V>(p: V -> bool, m: map<K, V>): K -> bool
  {
    k => k in m && p(m[k])
  }

  /** Filtering an enumeration of a key set enumerates the passing keys. */
  lemma {:induction false} FilterEnumerates<K>(p: K -> bool, order: seq<K>, keys: set<K>)
    requires Enumerates(order, keys)
    ensures Enumerates(Filter(p, order), set k | k in keys && p(k))
  {
    if order != [] {
      var init := order[..|order| - 1];
      var k := order[|order| - 1];
      assert order == init + [k];
      FilterEnumerates(p, init, keys - {k});
      FilterAppend(p, init, k);
    }
  }

  /** The decimal rendering of an integer, as fmt's %d prints it. */
  function Decimal(n: int): (s: string)
    ensures |s| > 0
  {
    if n < 0 then "-" + Digits(-n) else Digits(n)
  }

  function Digits(n: nat): (s: string)
    ensures |s| > 0
    ensures forall i :: 0 <= i < |s| ==> '0' <= s[i] <= '9'
    decreases n
  {
    if n < 10 then [DigitChar(n)] else Digits(n / 10) + [DigitChar(n % 10)]
  }

  function DigitChar(d: nat): (c: char)
    requires d < 10
    ensures '0' <= c <= '9'
  {
    ['0', '1', '2', '3', '4', '5', '6', '7', '8', '9'][d]
  }

  /** The number a string of decimal digits denotes. */
  function DigitsValue(s: string): int
    requires forall i :: 0 <= i < |s| ==> '0' <= s[i] <= '9'
  {
    if s == [] then 0 else DigitsValue(s[..|s| - 1]) * 10 + (s[|s| - 1] as int - '0' as int)
  }

  /** Reading back the digits of `n` gives `n`; a negative number reads back
      from the digits after its sign. */
  lemma {:induction false} DecimalRoundTrip(n: int)
    ensures n >= 0 ==> DigitsValue(Decimal(n)) == n
    ensures n < 0 ==> Decimal(n)[0] == '-' && DigitsValue(Decimal(n)[1..]) == -n
  {
    var m := if n < 0 then -n else n;
    DigitsRoundTrip(m);
    if n < 0 {
      assert Decimal(n)[1..] == Digits(m);
    }
  }

  lemma {:induction false} DigitsRoundTrip(n: nat)
    ensures DigitsValue(Digits(n)) == n
    decreases n
  {
    if n >= 10 {
      DigitsRoundTrip(n / 10);
      var s := Digits(n);
      assert s[..|s| - 1] == Digits(n / 10);
    }
  }
}
