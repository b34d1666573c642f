/** The ordered set of interned type definitions as a search tree (slake/runtime.h, slake/runtime.cc). How the
    tree is balanced, and which side of a comparison the entry is on, is not part of this model: both are
    arbitrary. */
module TypeSearch {
  import opened TypeRefs
  import opened TypeDefs

  /** A search tree over the readings of the entries. */
  datatype Tree = Leaf | Node(left: Tree, key: Reading, right: Tree)

  /** Holds: an entry that compares the same. PastEnd: a comparison has read past the end of a tuple. */
  datatype Answer = Holds(key: Reading) | Nothing | PastEnd

  function Keys(t: Tree): set<Reading> {
    match t
    case Leaf => {}
    case Node(left, key, right) => Keys(left) + {key} + Keys(right)
  }

  ghost predicate Sorted(t: Tree) {
    match t
    case Leaf => true
    case Node(left, key, right) =>
      && Sorted(left) && Sorted(right)
      && (forall k :: k in Keys(left) ==> Lex(k, key) == Less)
      && (forall k :: k in Keys(right) ==> Lex(key, k) == Less)
  }

  /** On which side of entry the key is; the comparator is asked once, one way round. */
  function Ask(key: Reading, entry: Reading, entryFirst: bool): Order {
    if entryFirst then Opposite(Lex(entry, key)) else Lex(key, entry)
  }

  function Descend(t: Tree, key: Reading, entryFirst: bool): Answer {
    match t
    case Leaf => Nothing
    case Node(left, entry, right) =>
      match Ask(key, entry, entryFirst)
      case Less => Descend(left, key, entryFirst)
      case Greater => Descend(right, key, entryFirst)
      case Same => Holds(entry)
      case Beyond => PastEnd
  }

  /** The answer of a set with these entries. */
  function Rightly(keys: set<Reading>, key: Reading): Answer {
    if key in keys then Holds(key) else Nothing
  }

  /** The comparator orders the key among the entries. */
  predicate ApartFrom(keys: set<Reading>, key: Reading) {
    forall k :: k in keys ==> Apart(k, key)
  }

  /** What differs from an entry within a reading differs within every longer one. */
  lemma {:induction false} LexExtends(a: Reading, longer: Reading, entry: Reading)
    requires ProperPrefix(a, longer) && (Lex(a, entry) == Less || Lex(a, entry) == Greater)
    ensures Lex(longer, entry) == Lex(a, entry)
  {
    assert longer[0] == a[0];
    if a[0] == entry[0] {
      assert ProperPrefix(a[1..], longer[1..]) by {
        LexRest(longer, a);
      }
      LexExtends(a[1..], longer[1..], entry[1..]);
    }
  }

  /** What differs from an entry differs from it within the first part, unless that begins the entry too. */
  lemma {:induction false} LexShortens(a: Reading, longer: Reading, entry: Reading)
    requires ProperPrefix(a, longer) && (Lex(longer, entry) == Less || Lex(longer, entry) == Greater)
    ensures Lex(a, entry) == Lex(longer, entry) || ProperPrefix(a, entry)
  {
    if a != [] {
      LexRest(longer, a);
      LexRest(entry, a);
      if a[0] == entry[0] {
        assert entry[1..] != [];
        LexShortens(a[1..], longer[1..], entry[1..]);
      }
    }
  }

  /** The key is ordered among the entries. */
  lemma {:induction false} DescendsAmong(t: Tree, key: Reading, entryFirst: bool)
    requires Sorted(t) && ApartFrom(Keys(t), key)
    ensures Descend(t, key, entryFirst) == Rightly(Keys(t), key)
  {
    if t.Node? {
      LexMeans(t.key, key);
      LexMeans(key, t.key);
      assert Apart(t.key, key);
      forall k | k in Keys(t.left)
        ensures Lex(key, t.key) == Greater ==> k != key
      {
        LexMeans(k, t.key);
      }
      forall k | k in Keys(t.right)
        ensures Lex(key, t.key) == Less ==> k != key
      {
        LexMeans(t.key, k);
      }
      DescendsAmong(t.left, key, entryFirst);
      DescendsAmong(t.right, key, entryFirst);
    }
  }

  /** An entry begins the key: it is taken for the key, or read past its end. */
  lemma {:induction false} DescendsToShorter(t: Tree, key: Reading, entryFirst: bool, entry: Reading)
    requires Sorted(t) && entry in Keys(t) && ProperPrefix(entry, key)
    ensures Descend(t, key, entryFirst) == if entryFirst then Holds(entry) else PastEnd
  {
    LexMeans(t.key, key);
    LexMeans(key, t.key);
    if entry != t.key {
      LexMeans(entry, t.key);
      LexMeans(t.key, entry);
      LexExtends(entry, key, t.key);
      DescendsToShorter(if entry in Keys(t.left) then t.left else t.right, key, entryFirst, entry);
    }
  }

  /** The key begins an entry: one that it begins is taken for it, or it is read past its end. */
  lemma {:induction false} DescendsToLonger(t: Tree, key: Reading, entryFirst: bool, entry: Reading)
    requires Sorted(t) && entry in Keys(t) && ProperPrefix(key, entry)
    ensures entryFirst ==> Descend(t, key, entryFirst) == PastEnd
    ensures !entryFirst ==>
              var found := Descend(t, key, entryFirst);
              found.Holds? && found.key in Keys(t) && ProperPrefix(key, found.key)
  {
    LexMeans(t.key, key);
    LexMeans(key, t.key);
    if !ProperPrefix(key, t.key) {
      LexMeans(entry, t.key);
      LexMeans(t.key, entry);
      LexShortens(key, entry, t.key);
      DescendsToLonger(if entry in Keys(t.left) then t.left else t.right, key, entryFirst, entry);
    }
  }

  /** A descent answers rightly exactly when the comparator orders the key among all entries: whatever the
      shape of the tree, and whichever side the entries are on, the path cannot avoid the others. */
  lemma DescendsExactly(t: Tree, key: Reading, entryFirst: bool)
    requires Sorted(t)
    ensures Descend(t, key, entryFirst) == Rightly(Keys(t), key) <==> ApartFrom(Keys(t), key)
    ensures !ApartFrom(Keys(t), key) ==> Misled(Keys(t), key, Descend(t, key, entryFirst))
  {
    if ApartFrom(Keys(t), key) {
      DescendsAmong(t, key, entryFirst);
    } else {
      var entry :| entry in Keys(t) && !Apart(entry, key);
      LexMeans(entry, key);
      LexMeans(key, entry);
      if ProperPrefix(entry, key) {
        DescendsToShorter(t, key, entryFirst, entry);
      } else {
        DescendsToLonger(t, key, entryFirst, entry);
      }
    }
  }

  /** The end of a tuple has been read past, or an entry of another reading is taken for the key. */
  ghost predicate Misled(keys: set<Reading>, key: Reading, answer: Answer) {
    || answer == PastEnd
    || (answer.Holds? && answer.key in keys && (ProperPrefix(answer.key, key) || ProperPrefix(key, answer.key)))
  }

  // ----- The trees that there are

  /** The comparator orders the entries; there is then a tree over them. */
  ghost predicate PairwiseApart(keys: set<Reading>) {
    forall k :: k in keys ==> ApartFrom(keys, k)
  }

  lemma KeyApart(keys: set<Reading>, key: Reading)
    requires PairwiseApart(keys) && ApartFrom(keys, key)
    ensures PairwiseApart(keys + {key})
  {
    hide Lex;
    LexSelf(key);
    forall a, b | a in keys + {key} && b in keys + {key}
      ensures Apart(a, b)
    {
    }
  }

  function Below(keys: set<Reading>, key: Reading): set<Reading> {
    set k | k in keys && Lex(k, key) == Less
  }

  function Above(keys: set<Reading>, key: Reading): set<Reading> {
    set k | k in keys && Lex(key, k) == Less
  }

  lemma SidesOf(keys: set<Reading>, key: Reading)
    requires key in keys && ApartFrom(keys, key)
    ensures keys == Below(keys, key) + {key} + Above(keys, key)
    ensures |Below(keys, key)| < |keys| && |Above(keys, key)| < |keys|
  {
    hide Lex;
    LexSelf(key);
    forall k | k in keys && k != key
      ensures Lex(k, key) == Less || Lex(key, k) == Less
    {
      assert Apart(k, key);
      LexMeans(k, key);
      LexMeans(key, k);
    }
    SubsetSmaller(Below(keys, key), keys - {key});
    SubsetSmaller(Above(keys, key), keys - {key});
  }

  /** Some tree over the entries: which one there is depends on the order of the insertions and on how the
      tree is balanced. */
  method Arrange(keys: set<Reading>) returns (t: Tree)
    requires PairwiseApart(keys)
    ensures Sorted(t) && Keys(t) == keys
    decreases |keys|
  {
    hide Lex, Apart;
    if keys == {} {
      return Leaf;
    }
    var key :| key in keys;
    SidesOf(keys, key);
    var left := Arrange(Below(keys, key));
    var right := Arrange(Above(keys, key));
    t := Node(left, key, right);
  }

  lemma SubsetSmaller(a: set<Reading>, b: set<Reading>)
    requires a <= b
    ensures |a| <= |b|
  {
    assert b == a + (b - a);
  }

  /** Only entries that the comparator orders make a tree. */
  lemma {:induction false} SortedApart(t: Tree)
    requires Sorted(t)
    ensures PairwiseApart(Keys(t))
  {
    if t.Node? {
      SortedApart(t.left);
      SortedApart(t.right);
      forall a, b | a in Keys(t) && b in Keys(t)
        ensures Apart(a, b)
      {
        LexSelf(a);
        LexMeans(a, b);
        LexMeans(b, a);
        if a in Keys(t.left) && b in Keys(t.right) {
          LexTransitive(a, t.key, b);
        } else if b in Keys(t.left) && a in Keys(t.right) {
          LexTransitive(b, t.key, a);
        }
      }
    }
  }

  /** Whichever side the entries are on, there is a set of one tuple in which a search for another finds that
      one, so that a removal takes out the wrong entry. */
  lemma WrongEntryFound(a: TypeRef, b: TypeRef, entryFirst: bool) returns (t: Tree, key: Reading, entry: Reading)
    ensures Sorted(t) && Keys(t) == {entry} && entry != key
    ensures {entry, key} == {Read(Tuple([a])), Read(Tuple([a, b]))}
    ensures Descend(t, key, entryFirst) == Holds(entry)
  {
    hide Read, Lex;
    var (short, long) := (Read(Tuple([a])), Read(Tuple([a, b])));
    assert ProperPrefix(short, long) by {
      BeginsExactly(Tuple([a]), Tuple([a, b]));
    }
    entry := if entryFirst then short else long;
    key := if entryFirst then long else short;
    t := Node(Leaf, entry, Leaf);
    LexMeans(short, long);
  }
}
