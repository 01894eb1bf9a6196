/**
 * `isMatchingFile(item, accepts)`: does one dragged item match a parsed
 * accept list? The item's MIME type is lower-cased, split on `/` and each part
 * trimmed; the first part is the main type and the second, if any, the
 * subtype. An accept pair matches when its type equals the main type and its
 * subtype is `*` or equals the item's subtype.
 */
module MimeMatch {
  import opened Wrappers
  import opened JsStrings
  import opened Host

  /** One `[type, subtype]` entry of a parsed accept list. */
  datatype AcceptPair = AcceptPair(main: string, sub: string)

  /**
   * The destructured `[typeMain, typeSub]` of an item's type; `sub` is absent
   * (`undefined`) when the type has no `/`.
   */
  datatype MimeType = MimeType(main: string, sub: Option<string>)

  function ParseMime(t: string): MimeType
  {
    var parts := TrimAll(Split(ToLower(t), '/'));
    MimeType(parts[0], if |parts| >= 2 then Some(parts[1]) else None)
  }

  /** The test inside the `for...of` loop. */
  predicate PairAccepts(p: AcceptPair, m: MimeType)
  {
    m.main == p.main && (p.sub == "*" || m.sub == Some(p.sub))
  }

  /** The `for...of` loop: search the pairs in order and stop at the first that accepts. */
  predicate AnyAccepts(accepts: seq<AcceptPair>, m: MimeType)
    decreases |accepts|
  {
    if accepts == [] then false
    else if PairAccepts(accepts[0], m) then true
    else AnyAccepts(accepts[1..], m)
  }

  predicate IsMatchingFile(item: DataItem, accepts: seq<AcceptPair>)
  {
    if !IsFileKind(item) then false
    else AnyAccepts(accepts, ParseMime(item.mimeType))
  }

  // ---------------------------------------------------------------------------
  // The search

  /** The loop finds a pair exactly when some pair accepts. */
  lemma {:induction false} AnyAcceptsIff(accepts: seq<AcceptPair>, m: MimeType)
    ensures AnyAccepts(accepts, m) <==> exists i :: 0 <= i < |accepts| && PairAccepts(accepts[i], m)
    decreases |accepts|
  {
    if accepts != [] {
      AnyAcceptsIff(accepts[1..], m);
      assert forall i :: 1 <= i < |accepts| ==> accepts[i] == accepts[1..][i - 1];
    }
  }

  /**
   * The whole matcher: a file-kind item whose parsed type is accepted by some
   * pair, the comparison being case-insensitive on the item's side.
   */
  lemma IsMatchingFileIff(item: DataItem, accepts: seq<AcceptPair>)
    ensures IsMatchingFile(item, accepts) <==>
              IsFileKind(item) &&
              exists i :: 0 <= i < |accepts| &&
                accepts[i].main == ParseMime(item.mimeType).main &&
                (accepts[i].sub == "*" || ParseMime(item.mimeType).sub == Some(accepts[i].sub))
  {
    AnyAcceptsIff(accepts, ParseMime(item.mimeType));
  }

  lemma NonFileNeverMatches(item: DataItem, accepts: seq<AcceptPair>)
    requires item.kind != "file"
    ensures !IsMatchingFile(item, accepts)
  {
  }

  lemma EmptyAcceptsNeverMatch(item: DataItem)
    ensures !IsMatchingFile(item, [])
  {
  }

  /** Appending pairs never turns a match into a mismatch. */
  lemma Monotone(item: DataItem, accepts: seq<AcceptPair>, more: seq<AcceptPair>)
    ensures IsMatchingFile(item, accepts) ==> IsMatchingFile(item, accepts + more)
    ensures IsMatchingFile(item, more) ==> IsMatchingFile(item, accepts + more)
  {
    var m := ParseMime(item.mimeType);
    AnyAcceptsIff(accepts, m);
    AnyAcceptsIff(more, m);
    AnyAcceptsIff(accepts + more, m);
    if AnyAccepts(accepts, m) {
      var i :| 0 <= i < |accepts| && PairAccepts(accepts[i], m);
      assert (accepts + more)[i] == accepts[i];
    }
    if AnyAccepts(more, m) {
      var i :| 0 <= i < |more| && PairAccepts(more[i], m);
      assert (accepts + more)[|accepts| + i] == more[i];
    }
  }

  /** Only which pairs occur matters: neither their order nor repetitions. */
  lemma OrderIndependent(item: DataItem, a: seq<AcceptPair>, b: seq<AcceptPair>)
    requires forall p :: p in a <==> p in b
    ensures IsMatchingFile(item, a) == IsMatchingFile(item, b)
  {
    var m := ParseMime(item.mimeType);
    AnyAcceptsIff(a, m);
    AnyAcceptsIff(b, m);
    if AnyAccepts(a, m) {
      var i :| 0 <= i < |a| && PairAccepts(a[i], m);
      assert a[i] in b;
    }
    if AnyAccepts(b, m) {
      var i :| 0 <= i < |b| && PairAccepts(b[i], m);
      assert b[i] in a;
    }
  }

  // ---------------------------------------------------------------------------
  // Parsing the item's MIME type

  /** Letter case of the item's type never changes the outcome. */
  lemma CaseInsensitive(item: DataItem, t: string, accepts: seq<AcceptPair>)
    requires EqualIgnoringCase(item.mimeType, t)
    ensures IsMatchingFile(item, accepts) == IsMatchingFile(item.(mimeType := t), accepts)
  {
    ToLowerCaseInsensitive(item.mimeType, t);
  }

  /** A type without `/` has no subtype; its main type is the whole trimmed type. */
  lemma ParseMimeNoSlash(t: string)
    requires '/' !in t
    ensures ParseMime(t) == MimeType(Trim(ToLower(t)), None)
  {
    ToLowerKeepsSeparator(t, '/');
    SplitNoSeparator(ToLower(t), '/');
  }

  /** A type without `/` matches only a `*` pair naming the whole trimmed type. */
  lemma NoSlashMatchesOnlyWildcard(item: DataItem, accepts: seq<AcceptPair>)
    requires '/' !in item.mimeType
    ensures IsMatchingFile(item, accepts) <==>
              IsFileKind(item) &&
              exists i :: 0 <= i < |accepts| &&
                accepts[i].main == Trim(ToLower(item.mimeType)) && accepts[i].sub == "*"
  {
    ParseMimeNoSlash(item.mimeType);
    IsMatchingFileIff(item, accepts);
  }

  /** The lower-cased split of `a/b` when neither side contains a `/`. */
  lemma SplitTwoParts(a: string, b: string)
    requires '/' !in a && '/' !in b
    ensures Split(ToLower(a + "/" + b), '/') == [ToLower(a), ToLower(b)]
  {
    LowerOfSlashed(a, b);
    ToLowerKeepsSeparator(a, '/');
    ToLowerKeepsSeparator(b, '/');
    SplitAppend(ToLower(a), ToLower(b), '/');
    SplitNoSeparator(ToLower(a), '/');
    SplitNoSeparator(ToLower(b), '/');
  }

  lemma LowerOfSlashed(a: string, b: string)
    ensures ToLower(a + "/" + b) == ToLower(a) + "/" + ToLower(b)
  {
    ToLowerAppend(a + "/", b);
    ToLowerAppend(a, "/");
    assert ToLower("/") == "/";
  }

  /** `main/sub` parses to its trimmed, lower-cased halves. */
  lemma ParseMimeTwoParts(a: string, b: string)
    requires '/' !in a && '/' !in b
    ensures ParseMime(a + "/" + b) == MimeType(Trim(ToLower(a)), Some(Trim(ToLower(b))))
  {
    SplitTwoParts(a, b);
  }

  /** Anything after a second `/` is ignored. */
  lemma ParseMimeIgnoresExtraParts(a: string, b: string, rest: string)
    requires '/' !in a && '/' !in b
    ensures ParseMime(a + "/" + b + "/" + rest) == ParseMime(a + "/" + b)
  {
    LowerOfSlashed(a + "/" + b, rest);
    SplitTwoParts(a, b);
    SplitAppend(ToLower(a + "/" + b), ToLower(rest), '/');
    var parts := Split(ToLower(a + "/" + b + "/" + rest), '/');
    assert parts[0] == ToLower(a) && parts[1] == ToLower(b);
  }
}
