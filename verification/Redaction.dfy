/**
 Redacting the configuration before it leaves the host (`config_file.rs`): every value under a secret
 key, at any depth and in any TOML spelling, and every value of a leftover `[auth]` section.

 The masked positions are all that can differ between two documents that redact alike, and no
 other value is touched.
 */
module Redaction {
  import opened Outcomes

  // A parsed document. `Scalar`, `Array` and `Inline` are TOML values; `Table` and `Tables` are
  // sections and arrays of sections.
  datatype Node =
    | Nothing
    | Scalar(text: string)
    | Array(items: seq<Node>)
    | Inline(entries: seq<Entry>)
    | Table(entries: seq<Entry>)
    | Tables(items: seq<Node>)

  datatype Entry = Entry(key: string, node: Node)

  const MASK := "***"

  predicate Secret(key: string) {
    key == "bearer_token" || key == "password" || key == "archive_key"
  }

  predicate IsValue(n: Node) {
    n.Scalar? || n.Array? || n.Inline?
  }

  // ---- Masking --------------------------------------------------------------------------------

  function MaskSecrets(n: Node): Node {
    match n
    case Nothing => n
    case Scalar(_) => n
    case Array(items) => Array(MaskItems(items))
    case Inline(entries) => Inline(MaskEntries(entries))
    case Table(entries) => Table(MaskEntries(entries))
    case Tables(items) => Tables(MaskItems(items))
  }

  function MaskItems(items: seq<Node>): seq<Node> {
    if items == [] then [] else [MaskSecrets(items[0])] + MaskItems(items[1..])
  }

  function MaskEntries(entries: seq<Entry>): seq<Entry> {
    if entries == [] then []
    else
      var e := entries[0];
      [Entry(e.key, if Secret(e.key) then Scalar(MASK) else MaskSecrets(e.node))] + MaskEntries(entries[1..])
  }

  // The masking of `auth`: sections keep their keys and lose every value.
  function MaskEvery(n: Node): Node {
    match n
    case Nothing => n
    case Table(entries) => Table(MaskEveryEntry(entries))
    case Tables(items) => Tables(MaskEveryItem(items))
    case _ => Scalar(MASK)
  }

  function MaskEveryItem(items: seq<Node>): seq<Node> {
    if items == [] then [] else [MaskEvery(items[0])] + MaskEveryItem(items[1..])
  }

  function MaskEveryEntry(entries: seq<Entry>): seq<Entry> {
    if entries == [] then []
    else [Entry(entries[0].key, MaskEvery(entries[0].node))] + MaskEveryEntry(entries[1..])
  }

  // The `auth` section of the document itself; keys are unique, so there is at most one.
  function MaskAuth(doc: seq<Entry>): seq<Entry> {
    if doc == [] then []
    else [if doc[0].key == "auth" then Entry("auth", MaskEvery(doc[0].node)) else doc[0]] + MaskAuth(doc[1..])
  }

  function Redact(doc: seq<Entry>): seq<Entry> {
    MaskEntries(MaskAuth(doc))
  }

  // ---- What redaction hides -------------------------------------------------------------------

  // Alike but for the values under secret keys.
  predicate Alike(a: Node, b: Node) {
    match (a, b)
    case (Nothing, Nothing) => true
    case (Scalar(s), Scalar(t)) => s == t
    case (Array(x), Array(y)) => ItemsAlike(x, y)
    case (Inline(x), Inline(y)) => EntriesAlike(x, y)
    case (Table(x), Table(y)) => EntriesAlike(x, y)
    case (Tables(x), Tables(y)) => ItemsAlike(x, y)
    case _ => false
  }

  predicate ItemsAlike(a: seq<Node>, b: seq<Node>) {
    |a| == |b| && (a == [] || (Alike(a[0], b[0]) && ItemsAlike(a[1..], b[1..])))
  }

  predicate EntriesAlike(a: seq<Entry>, b: seq<Entry>) {
    |a| == |b| && (a == [] || (&& a[0].key == b[0].key
                               && (Secret(a[0].key) || Alike(a[0].node, b[0].node))
                               && EntriesAlike(a[1..], b[1..])))
  }

  // Alike in their sections and keys, whatever values they hold.
  predicate SameShape(a: Node, b: Node) {
    match (a, b)
    case (Nothing, Nothing) => true
    case (Table(x), Table(y)) => EntriesSameShape(x, y)
    case (Tables(x), Tables(y)) => ItemsSameShape(x, y)
    case _ => IsValue(a) && IsValue(b)
  }

  predicate ItemsSameShape(a: seq<Node>, b: seq<Node>) {
    |a| == |b| && (a == [] || (SameShape(a[0], b[0]) && ItemsSameShape(a[1..], b[1..])))
  }

  predicate EntriesSameShape(a: seq<Entry>, b: seq<Entry>) {
    |a| == |b| && (a == [] || (&& a[0].key == b[0].key
                               && (Secret(a[0].key) || SameShape(a[0].node, b[0].node))
                               && EntriesSameShape(a[1..], b[1..])))
  }

  // Two documents that differ only in values under secret keys, or in values under `auth`.
  predicate DiffersInSecretsOnly(a: seq<Entry>, b: seq<Entry>) {
    |a| == |b| && (a == [] || (&& a[0].key == b[0].key
                               && (|| Secret(a[0].key)
                                   || if a[0].key == "auth" then SameShape(a[0].node, b[0].node)
                                      else Alike(a[0].node, b[0].node))
                               && DiffersInSecretsOnly(a[1..], b[1..])))
  }

  lemma SameFirst<T>(x: T, a: seq<T>, y: T, b: seq<T>)
    ensures [x] + a == [y] + b <==> x == y && a == b
  {
    if [x] + a == [y] + b {
      assert ([x] + a)[0] == ([y] + b)[0] && ([x] + a)[1..] == a && ([y] + b)[1..] == b;
    }
  }

  lemma {:induction false} MaskedSame(a: Node, b: Node)
    ensures MaskSecrets(a) == MaskSecrets(b) <==> Alike(a, b)
    decreases a
  {
    match (a, b)
    case (Array(x), Array(y)) => ItemsMaskedSame(x, y);
    case (Inline(x), Inline(y)) => EntriesMaskedSame(x, y);
    case (Table(x), Table(y)) => EntriesMaskedSame(x, y);
    case (Tables(x), Tables(y)) => ItemsMaskedSame(x, y);
    case _ =>
  }

  lemma {:induction false} ItemsMaskedSame(a: seq<Node>, b: seq<Node>)
    ensures MaskItems(a) == MaskItems(b) <==> ItemsAlike(a, b)
    decreases a
  {
    if a != [] && b != [] {
      MaskedSame(a[0], b[0]);
      ItemsMaskedSame(a[1..], b[1..]);
      SameFirst(MaskSecrets(a[0]), MaskItems(a[1..]), MaskSecrets(b[0]), MaskItems(b[1..]));
    }
  }

  lemma {:induction false} EntriesMaskedSame(a: seq<Entry>, b: seq<Entry>)
    ensures MaskEntries(a) == MaskEntries(b) <==> EntriesAlike(a, b)
    decreases a
  {
    if a != [] && b != [] {
      MaskedSame(a[0].node, b[0].node);
      EntriesMaskedSame(a[1..], b[1..]);
      SameFirst(MaskEntries(a)[0], MaskEntries(a[1..]), MaskEntries(b)[0], MaskEntries(b[1..]));
    }
  }

  lemma {:induction false} EveryMaskedSame(a: Node, b: Node)
    ensures MaskSecrets(MaskEvery(a)) == MaskSecrets(MaskEvery(b)) <==> SameShape(a, b)
    decreases a
  {
    match (a, b)
    case (Table(x), Table(y)) => EveryEntryMaskedSame(x, y);
    case (Tables(x), Tables(y)) => EveryItemMaskedSame(x, y);
    case _ =>
  }

  lemma {:induction false} EveryItemMaskedSame(a: seq<Node>, b: seq<Node>)
    ensures MaskItems(MaskEveryItem(a)) == MaskItems(MaskEveryItem(b)) <==> ItemsSameShape(a, b)
    decreases a
  {
    if a != [] && b != [] {
      var x, y := MaskEveryItem(a), MaskEveryItem(b);
      assert x[1..] == MaskEveryItem(a[1..]) && y[1..] == MaskEveryItem(b[1..]);
      EveryMaskedSame(a[0], b[0]);
      EveryItemMaskedSame(a[1..], b[1..]);
      SameFirst(MaskSecrets(x[0]), MaskItems(x[1..]), MaskSecrets(y[0]), MaskItems(y[1..]));
    }
  }

  lemma {:induction false} EveryEntryMaskedSame(a: seq<Entry>, b: seq<Entry>)
    ensures MaskEntries(MaskEveryEntry(a)) == MaskEntries(MaskEveryEntry(b)) <==> EntriesSameShape(a, b)
    decreases a
  {
    if a != [] && b != [] {
      var x, y := MaskEveryEntry(a), MaskEveryEntry(b);
      assert x[1..] == MaskEveryEntry(a[1..]) && y[1..] == MaskEveryEntry(b[1..]);
      EveryMaskedSame(a[0].node, b[0].node);
      EveryEntryMaskedSame(a[1..], b[1..]);
      SameFirst(MaskEntries(x)[0], MaskEntries(x[1..]), MaskEntries(y)[0], MaskEntries(y[1..]));
    }
  }

  // Two documents redact to the same document exactly when they differ only in what is secret.
  lemma {:induction false} RedactedSameExactlyWhen(a: seq<Entry>, b: seq<Entry>)
    ensures Redact(a) == Redact(b) <==> DiffersInSecretsOnly(a, b)
    decreases |a|
  {
    if a != [] && b != [] {
      var x, y := MaskAuth(a), MaskAuth(b);
      assert x[1..] == MaskAuth(a[1..]) && y[1..] == MaskAuth(b[1..]);
      MaskedSame(a[0].node, b[0].node);
      EveryMaskedSame(a[0].node, b[0].node);
      RedactedSameExactlyWhen(a[1..], b[1..]);
      SameFirst(MaskEntries(x)[0], MaskEntries(x[1..]), MaskEntries(y)[0], MaskEntries(y[1..]));
    }
  }

  // ---- Redacting twice ------------------------------------------------------------------------

  lemma {:induction false} MaskedIsAlike(n: Node)
    ensures Alike(MaskSecrets(n), n)
    decreases n
  {
    match n
    case Array(items) => MaskedItemsAlike(items);
    case Inline(entries) => MaskedEntriesAlike(entries);
    case Table(entries) => MaskedEntriesAlike(entries);
    case Tables(items) => MaskedItemsAlike(items);
    case _ =>
  }

  lemma {:induction false} MaskedItemsAlike(items: seq<Node>)
    ensures ItemsAlike(MaskItems(items), items)
    decreases items
  {
    if items != [] {
      MaskedIsAlike(items[0]);
      MaskedItemsAlike(items[1..]);
      assert MaskItems(items)[1..] == MaskItems(items[1..]);
    }
  }

  lemma {:induction false} MaskedEntriesAlike(entries: seq<Entry>)
    ensures EntriesAlike(MaskEntries(entries), entries)
    decreases entries
  {
    if entries != [] {
      MaskedIsAlike(entries[0].node);
      MaskedEntriesAlike(entries[1..]);
      assert MaskEntries(entries)[1..] == MaskEntries(entries[1..]);
    }
  }

  lemma {:induction false} EveryMaskedHasSameShape(n: Node)
    ensures SameShape(MaskSecrets(MaskEvery(n)), n)
    decreases n
  {
    match n
    case Table(entries) => EveryEntryHasSameShape(entries);
    case Tables(items) => EveryItemHasSameShape(items);
    case _ =>
  }

  lemma {:induction false} EveryItemHasSameShape(items: seq<Node>)
    ensures ItemsSameShape(MaskItems(MaskEveryItem(items)), items)
    decreases items
  {
    if items != [] {
      EveryMaskedHasSameShape(items[0]);
      EveryItemHasSameShape(items[1..]);
      assert MaskEveryItem(items)[1..] == MaskEveryItem(items[1..]);
      assert MaskItems(MaskEveryItem(items))[1..] == MaskItems(MaskEveryItem(items[1..]));
    }
  }

  lemma {:induction false} EveryEntryHasSameShape(entries: seq<Entry>)
    ensures EntriesSameShape(MaskEntries(MaskEveryEntry(entries)), entries)
    decreases entries
  {
    if entries != [] {
      EveryMaskedHasSameShape(entries[0].node);
      EveryEntryHasSameShape(entries[1..]);
      assert MaskEveryEntry(entries)[1..] == MaskEveryEntry(entries[1..]);
      assert MaskEntries(MaskEveryEntry(entries))[1..] == MaskEntries(MaskEveryEntry(entries[1..]));
    }
  }

  lemma {:induction false} RedactedDiffersInSecretsOnly(doc: seq<Entry>)
    ensures DiffersInSecretsOnly(Redact(doc), doc)
    decreases |doc|
  {
    if doc != [] {
      MaskedIsAlike(doc[0].node);
      EveryMaskedHasSameShape(doc[0].node);
      RedactedDiffersInSecretsOnly(doc[1..]);
      assert MaskAuth(doc)[1..] == MaskAuth(doc[1..]);
      assert Redact(doc)[1..] == Redact(doc[1..]);
    }
  }

  // Redacting a redacted document changes nothing.
  lemma RedactionIsIdempotent(doc: seq<Entry>)
    ensures Redact(Redact(doc)) == Redact(doc)
  {
    RedactedDiffersInSecretsOnly(doc);
    RedactedSameExactlyWhen(Redact(doc), doc);
  }

  // ---- Every value, found by its path ---------------------------------------------------------

  datatype Selector = Key(key: string) | At(index: nat)

  function Find(entries: seq<Entry>, key: string): Option<Node> {
    if entries == [] then None
    else if entries[0].key == key then Some(entries[0].node)
    else Find(entries[1..], key)
  }

  // The scalar a path leads to, if it leads to one.
  function LeafAt(n: Node, path: seq<Selector>): Option<string>
    decreases |path|, 0
  {
    if path == [] then (if n.Scalar? then Some(n.text) else None)
    else
      match (path[0], n)
      case (Key(k), Inline(entries)) => LeafIn(entries, k, path[1..])
      case (Key(k), Table(entries)) => LeafIn(entries, k, path[1..])
      case (At(i), Array(items)) => if i < |items| then LeafAt(items[i], path[1..]) else None
      case (At(i), Tables(items)) => if i < |items| then LeafAt(items[i], path[1..]) else None
      case _ => None
  }

  function LeafIn(entries: seq<Entry>, key: string, rest: seq<Selector>): Option<string>
    decreases |rest|, 1
  {
    var found := Find(entries, key);
    if found.None? then None else LeafAt(found.value, rest)
  }

  // The keys whose values never leave the host.
  const SECRET_KEYS := {"bearer_token", "password", "archive_key"}

  // No secret key on the way.
  predicate Clear(path: seq<Selector>) {
    forall s | s in path :: s.Key? ==> s.key !in SECRET_KEYS
  }

  lemma {:induction false} FindMasked(entries: seq<Entry>, key: string)
    ensures var found := Find(entries, key);
            Find(MaskEntries(entries), key)
            == if found.None? then None else Some(if Secret(key) then Scalar(MASK) else MaskSecrets(found.value))
    decreases |entries|
  {
    if entries != [] {
      FindMasked(entries[1..], key);
      assert MaskEntries(entries)[1..] == MaskEntries(entries[1..]);
    }
  }

  lemma {:induction false} MaskedItemAt(items: seq<Node>, i: nat)
    requires i < |items|
    ensures |MaskItems(items)| == |items| && MaskItems(items)[i] == MaskSecrets(items[i])
  {
    if |items| > 1 {
      MaskedItemAt(items[1..], if i > 0 then i - 1 else 0);
    }
  }

  lemma {:induction false} MaskItemsLength(items: seq<Node>)
    ensures |MaskItems(items)| == |items|
  {
    if items != [] {
      MaskItemsLength(items[1..]);
    }
  }

  // A value with no secret key on its path is what it was; one with a secret key on its path is
  // masked, or not there at all.
  lemma {:induction false} MaskedLeaf(n: Node, path: seq<Selector>)
    ensures Clear(path) ==> LeafAt(MaskSecrets(n), path) == LeafAt(n, path)
    ensures !Clear(path) ==> LeafAt(MaskSecrets(n), path) == None || LeafAt(MaskSecrets(n), path) == Some(MASK)
    decreases |path|, 0
  {
    if path != [] {
      var rest := path[1..];
      assert Clear(path) <==> Clear([path[0]]) && Clear(rest);
      if path[0].At? && (n.Array? || n.Tables?) {
        MaskItemsLength(n.items);
        if path[0].index < |n.items| {
          MaskedItemAt(n.items, path[0].index);
          MaskedLeaf(n.items[path[0].index], rest);
        }
      } else if path[0].Key? && (n.Inline? || n.Table?) {
        MaskedLeafIn(n.entries, path[0].key, rest);
      }
    }
  }

  lemma {:induction false} MaskedLeafIn(entries: seq<Entry>, key: string, rest: seq<Selector>)
    ensures !Secret(key) && Clear(rest) ==> LeafIn(MaskEntries(entries), key, rest) == LeafIn(entries, key, rest)
    ensures Secret(key) || !Clear(rest) ==>
              LeafIn(MaskEntries(entries), key, rest) == None || LeafIn(MaskEntries(entries), key, rest) == Some(MASK)
    decreases |rest|, 1
  {
    FindMasked(entries, key);
    var found := Find(entries, key);
    if found.Some? && !Secret(key) {
      MaskedLeaf(found.value, rest);
    }
  }

  lemma {:induction false} FindWithAuthMasked(doc: seq<Entry>, key: string)
    ensures var found := Find(doc, key);
            Find(MaskAuth(doc), key)
            == if found.Some? && key == "auth" then Some(MaskEvery(found.value)) else found
    decreases |doc|
  {
    if doc != [] {
      FindWithAuthMasked(doc[1..], key);
      assert MaskAuth(doc)[1..] == MaskAuth(doc[1..]);
    }
  }

  lemma {:induction false} FindEvery(entries: seq<Entry>, key: string)
    ensures var found := Find(entries, key);
            Find(MaskEveryEntry(entries), key) == if found.None? then None else Some(MaskEvery(found.value))
    decreases |entries|
  {
    if entries != [] {
      FindEvery(entries[1..], key);
      assert MaskEveryEntry(entries)[1..] == MaskEveryEntry(entries[1..]);
    }
  }

  lemma {:induction false} EveryItemAt(items: seq<Node>, i: nat)
    requires i < |items|
    ensures |MaskEveryItem(items)| == |items| && MaskEveryItem(items)[i] == MaskEvery(items[i])
  {
    if |items| > 1 {
      EveryItemAt(items[1..], if i > 0 then i - 1 else 0);
    }
  }

  lemma {:induction false} EveryItemLength(items: seq<Node>)
    ensures |MaskEveryItem(items)| == |items|
  {
    if items != [] {
      EveryItemLength(items[1..]);
    }
  }

  lemma {:induction false} EveryLeafIsMasked(n: Node, path: seq<Selector>)
    ensures LeafAt(MaskEvery(n), path) == None || LeafAt(MaskEvery(n), path) == Some(MASK)
    decreases |path|
  {
    if path != [] {
      if path[0].At? && n.Tables? {
        EveryItemLength(n.items);
        if path[0].index < |n.items| {
          EveryItemAt(n.items, path[0].index);
          EveryLeafIsMasked(n.items[path[0].index], path[1..]);
        }
      } else if path[0].Key? && n.Table? {
        FindEvery(n.entries, path[0].key);
        if Find(n.entries, path[0].key).Some? {
          EveryLeafIsMasked(Find(n.entries, path[0].key).value, path[1..]);
        }
      }
    }
  }

  // At every path of every document: a value outside `auth` with no secret key on its path is what
  // it was, and any other value is masked or not there.
  lemma RedactedLeaf(doc: seq<Entry>, key: string, rest: seq<Selector>)
    ensures key != "auth" && key !in SECRET_KEYS && Clear(rest) ==>
              LeafIn(Redact(doc), key, rest) == LeafIn(doc, key, rest)
    ensures key == "auth" || key in SECRET_KEYS || !Clear(rest) ==>
              LeafIn(Redact(doc), key, rest) == None || LeafIn(Redact(doc), key, rest) == Some("***")
  {
    MaskedLeafIn(MaskAuth(doc), key, rest);
    FindWithAuthMasked(doc, key);
    if key == "auth" && Find(doc, key).Some? {
      EveryLeafIsMasked(Find(doc, key).value, rest);
    }
  }
}
