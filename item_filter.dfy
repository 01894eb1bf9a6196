/**
 * `getMatchingDataItems(list, acceptVal, multiple)`: parse the accept string
 * and select the dragged items it admits. An empty accept string admits every
 * file-kind item. Without `multiple` only the first selected item is kept; in
 * the empty-accept case that slot is `undefined` (`None`) when there is none.
 */
module ItemFilter {
  import opened Wrappers
  import opened JsStrings
  import opened JsArrays
  import opened Host
  import opened MimeMatch

  // ---------------------------------------------------------------------------
  // Parsing the accept string

  /** One comma-separated piece: split on `/`, trim; kept only with exactly two parts. */
  function ParseEntry(piece: string): seq<AcceptPair>
  {
    var parts := TrimAll(Split(piece, '/'));
    if |parts| == 2 then [AcceptPair(parts[0], parts[1])] else []
  }

  function ParseEntries(pieces: seq<string>): seq<AcceptPair>
    decreases |pieces|
  {
    if pieces == [] then [] else ParseEntry(pieces[0]) + ParseEntries(pieces[1..])
  }

  /** `acceptVal.toLowerCase().split(',').map(...).filter(parts => parts.length === 2)`. */
  function ParseAccepts(acceptVal: string): seq<AcceptPair>
  {
    ParseEntries(Split(ToLower(acceptVal), ','))
  }

  /** A piece yields a pair exactly when it holds one `/`; otherwise it is dropped. */
  lemma ParseEntryIff(piece: string)
    ensures |ParseEntry(piece)| <= 1
    ensures ParseEntry(piece) != [] <==> Count(piece, '/') == 1
  {
    SplitLength(piece, '/');
  }

  /** A well-formed piece `a/b` yields the pair of its trimmed halves. */
  lemma ParseEntryOf(a: string, b: string)
    requires '/' !in a && '/' !in b
    ensures ParseEntry(a + "/" + b) == [AcceptPair(Trim(a), Trim(b))]
  {
    SplitAppend(a, b, '/');
    SplitNoSeparator(a, '/');
    SplitNoSeparator(b, '/');
  }

  /** Parsing a list of pieces distributes over concatenation. */
  lemma {:induction false} ParseEntriesAppend(p1: seq<string>, p2: seq<string>)
    ensures ParseEntries(p1 + p2) == ParseEntries(p1) + ParseEntries(p2)
    decreases |p1|
  {
    if p1 == [] {
      assert p1 + p2 == p2;
    } else {
      assert (p1 + p2)[1..] == p1[1..] + p2;
      ParseEntriesAppend(p1[1..], p2);
    }
  }

  /** Every pair comes from one of the pieces, and every piece's pair is kept. */
  lemma {:induction false} ParseEntriesMembers(pieces: seq<string>, p: AcceptPair)
    ensures p in ParseEntries(pieces) <==> exists k :: 0 <= k < |pieces| && p in ParseEntry(pieces[k])
    decreases |pieces|
  {
    if pieces != [] {
      ParseEntriesMembers(pieces[1..], p);
      assert forall k :: 1 <= k < |pieces| ==> pieces[k] == pieces[1..][k - 1];
    }
  }

  /** The pieces between commas are parsed independently and their pairs concatenated. */
  lemma ParseAcceptsAppend(a: string, b: string)
    ensures ParseAccepts(a + "," + b) == ParseAccepts(a) + ParseAccepts(b)
  {
    ToLowerAppend(a + ",", b);
    ToLowerAppend(a, ",");
    assert ToLower(",") == ",";
    SplitAppend(ToLower(a), ToLower(b), ',');
    ParseEntriesAppend(Split(ToLower(a), ','), Split(ToLower(b), ','));
  }

  /** An accept string without a comma is a single entry. */
  lemma ParseAcceptsSingle(v: string)
    requires ',' !in v
    ensures ParseAccepts(v) == ParseEntry(ToLower(v))
  {
    ToLowerKeepsSeparator(v, ',');
    SplitNoSeparator(ToLower(v), ',');
  }

  /** A parsed field is lower-case, trimmed, and free of `,` and `/`. */
  predicate Normal(x: string)
  {
    ToLower(x) == x && Trim(x) == x && ',' !in x && '/' !in x
  }

  lemma NormalPart(piece: string, k: nat)
    requires ToLower(piece) == piece && ',' !in piece && k < |Split(piece, '/')|
    ensures Normal(Trim(Split(piece, '/')[k]))
  {
    var part := Split(piece, '/')[k];
    forall j | 0 <= j < |part| ensures !IsUpper(part[j]) && part[j] != ',' {
      SplitPartChars(piece, '/', k, part[j]);
    }
    ToLowerOfLower(part);
    TrimKeepsLower(part);
    TrimKeepsAbsent(part, ',');
    TrimKeepsAbsent(part, '/');
    TrimIdempotent(part);
  }

  lemma {:induction false} NormalEntries(pieces: seq<string>, p: AcceptPair)
    requires forall k :: 0 <= k < |pieces| ==> ToLower(pieces[k]) == pieces[k] && ',' !in pieces[k]
    requires p in ParseEntries(pieces)
    ensures Normal(p.main) && Normal(p.sub)
    decreases |pieces|
  {
    if p in ParseEntry(pieces[0]) {
      var parts := Split(pieces[0], '/');
      assert |parts| == 2 && p == AcceptPair(Trim(parts[0]), Trim(parts[1]));
      NormalPart(pieces[0], 0);
      NormalPart(pieces[0], 1);
    } else {
      NormalEntries(pieces[1..], p);
    }
  }

  /** Parsing lower-cases and trims every field and leaves no separator in it. */
  lemma ParsedPairsAreNormal(acceptVal: string, p: AcceptPair)
    requires p in ParseAccepts(acceptVal)
    ensures Normal(p.main) && Normal(p.sub)
  {
    var pieces := Split(ToLower(acceptVal), ',');
    forall k | 0 <= k < |pieces| ensures ToLower(pieces[k]) == pieces[k] && ',' !in pieces[k] {
      forall j | 0 <= j < |pieces[k]| ensures !IsUpper(pieces[k][j]) {
        SplitPartChars(ToLower(acceptVal), ',', k, pieces[k][j]);
      }
      ToLowerOfLower(pieces[k]);
    }
    NormalEntries(pieces, p);
  }

  // ---------------------------------------------------------------------------
  // Selecting items

  /** `item => isMatchingFile(item, accepts)`. */
  function Matcher(accepts: seq<AcceptPair>): DataItem -> bool
  {
    (item: DataItem) => IsMatchingFile(item, accepts)
  }

  /** Every element is present (no `undefined` slot). */
  function AllPresent(s: seq<DataItem>): (r: seq<Option<DataItem>>)
    ensures |r| == |s| && forall k :: 0 <= k < |s| ==> r[k] == Some(s[k])
  {
    seq(|s|, k requires 0 <= k < |s| => Some(s[k]))
  }

  function GetMatchingDataItems(items: seq<DataItem>, acceptVal: string, multiple: bool): seq<Option<DataItem>>
  {
    if acceptVal == "" then
      var files := Filter(items, IsFileKind);
      if multiple then AllPresent(files)
      else [if |files| > 0 then Some(files[0]) else None]
    else
      var matching := Filter(items, Matcher(ParseAccepts(acceptVal)));
      if |matching| == 0 then []
      else if multiple then AllPresent(matching)
      else [Some(matching[0])]
  }

  /** What an accept string admits, whichever branch handles it. */
  function Admits(acceptVal: string): DataItem -> bool
  {
    if acceptVal == "" then IsFileKind else Matcher(ParseAccepts(acceptVal))
  }

  /** With `multiple`, the result is exactly the admitted items, in input order. */
  lemma MultipleSelectsAdmitted(items: seq<DataItem>, acceptVal: string)
    ensures GetMatchingDataItems(items, acceptVal, true) == AllPresent(Filter(items, Admits(acceptVal)))
  {
  }

  /** Empty accept with `multiple`: exactly the file-kind items, in input order. */
  lemma EmptyAcceptMultiple(items: seq<DataItem>, x: DataItem)
    ensures GetMatchingDataItems(items, "", true) == AllPresent(Filter(items, IsFileKind))
    ensures Some(x) in GetMatchingDataItems(items, "", true) <==> x in items && x.kind == "file"
    ensures IsSubsequence(Filter(items, IsFileKind), items)
  {
    FilterMembers(items, IsFileKind, x);
    FilterIsSubsequence(items, IsFileKind);
  }

  /** Without `multiple` the result is the first admitted item, if any. */
  lemma SingleSelectsFirst(items: seq<DataItem>, acceptVal: string)
    ensures var r := GetMatchingDataItems(items, acceptVal, false);
            var p := Admits(acceptVal);
            if exists k :: 0 <= k < |items| && p(items[k]) then
              exists i :: 0 <= i < |items| && p(items[i]) && r == [Some(items[i])] &&
                          forall j :: 0 <= j < i ==> !p(items[j])
            else
              r == if acceptVal == "" then [None] else []
  {
    var p := Admits(acceptVal);
    FilterEmpty(items, p);
    if Filter(items, p) != [] {
      var i := FilterFirst(items, p);
    }
  }

  /** Empty accept without `multiple`: always exactly one slot. */
  lemma EmptyAcceptSingleHasOneSlot(items: seq<DataItem>)
    ensures var r := GetMatchingDataItems(items, "", false);
            |r| == 1 && (r[0] == None <==> forall k :: 0 <= k < |items| ==> items[k].kind != "file")
  {
    FilterEmpty(items, IsFileKind);
  }

  /**
   * With a non-empty accept string the result holds only present, file-kind
   * items of the input that match the parsed pairs, and is no longer than the input.
   */
  lemma NonEmptyAcceptSelectsMatching(items: seq<DataItem>, acceptVal: string, multiple: bool, k: nat)
    requires acceptVal != "" && k < |GetMatchingDataItems(items, acceptVal, multiple)|
    ensures |GetMatchingDataItems(items, acceptVal, multiple)| <= |items|
    ensures var slot := GetMatchingDataItems(items, acceptVal, multiple)[k];
            slot.Some? && slot.value in items && slot.value.kind == "file" &&
            IsMatchingFile(slot.value, ParseAccepts(acceptVal))
  {
    var matching := Filter(items, Matcher(ParseAccepts(acceptVal)));
    var x := if multiple then matching[k] else matching[0];
    FilterMembers(items, Matcher(ParseAccepts(acceptVal)), x);
  }

  /** An accept string made only of malformed entries admits nothing. */
  lemma MalformedAcceptSelectsNothing(items: seq<DataItem>, acceptVal: string, multiple: bool)
    requires acceptVal != "" && ParseAccepts(acceptVal) == []
    ensures GetMatchingDataItems(items, acceptVal, multiple) == []
  {
    FilterEmpty(items, Matcher([]));
  }

  /** The original order and repetitions of the accepted pairs do not matter. */
  lemma AcceptOrderIrrelevant(items: seq<DataItem>, a: string, b: string, multiple: bool)
    requires a != "" && b != ""
    requires forall p :: p in ParseAccepts(a) <==> p in ParseAccepts(b)
    ensures GetMatchingDataItems(items, a, multiple) == GetMatchingDataItems(items, b, multiple)
  {
    forall k | 0 <= k < |items|
      ensures Matcher(ParseAccepts(a))(items[k]) == Matcher(ParseAccepts(b))(items[k])
    {
      OrderIndependent(items[k], ParseAccepts(a), ParseAccepts(b));
    }
    FilterCongruent(items, Matcher(ParseAccepts(a)), Matcher(ParseAccepts(b)));
  }

  // ---------------------------------------------------------------------------
  // Worked cases

  /** A plain lower-case word (no separator, no white space, no upper case). */
  predicate IsWord(a: string)
  {
    forall i :: 0 <= i < |a| ==> !IsUpper(a[i]) && !IsSpace(a[i]) && a[i] != '/' && a[i] != ','
  }

  /** A single `type/sub` entry of plain words parses to that pair. */
  lemma ParseWordPair(a: string, b: string)
    requires IsWord(a) && IsWord(b)
    ensures ParseAccepts(a + "/" + b) == [AcceptPair(a, b)]
  {
    var v := a + "/" + b;
    assert forall i :: 0 <= i < |v| ==> v[i] != ',' && !IsUpper(v[i]) by {
      forall i | 0 <= i < |v| ensures v[i] != ',' && !IsUpper(v[i]) {
        if i < |a| { assert v[i] == a[i]; }
        else if i > |a| { assert v[i] == b[i - |a| - 1]; }
      }
    }
    ParseAcceptsSingle(v);
    ToLowerOfLower(v);
    ParseEntryOf(a, b);
    TrimOfTrimmed(a);
    TrimOfTrimmed(b);
  }

  /** The accept string for any image parses to the single wildcard pair. */
  lemma ParseImageWildcard()
    ensures ParseAccepts("image/*") == [AcceptPair("image", "*")]
  {
    assert IsWord("image") && IsWord("*");
    ParseWordPair("image", "*");
    assert "image" + "/" + "*" == "image/*";
  }

  /** An item type `a/b` of plain words parses to its two halves. */
  lemma ParseMimeOfWords(a: string, b: string)
    requires IsWord(a) && IsWord(b)
    ensures ParseMime(a + "/" + b) == MimeType(a, Some(b))
  {
    ParseMimeTwoParts(a, b);
    ToLowerOfLower(a);
    ToLowerOfLower(b);
    TrimOfTrimmed(a);
    TrimOfTrimmed(b);
  }

  lemma FilterOfThree(x: DataItem, y: DataItem, z: DataItem, p: DataItem -> bool)
    requires !p(x) && p(y) && p(z)
    ensures Filter([x, y, z], p) == [y, z]
  {
    assert [x, y, z][1..] == [y, z];
    assert [y, z][1..] == [z];
    assert Filter([z], p) == [z] + Filter([], p);
    assert Filter([y, z], p) == [y] + Filter([z], p);
  }

  lemma PdfIsNotAnImage(pdf: DataItem)
    requires pdf.kind == "file" && pdf.mimeType == "application/pdf"
    ensures !IsMatchingFile(pdf, [AcceptPair("image", "*")])
  {
    assert IsWord("application") && IsWord("pdf");
    ParseMimeOfWords("application", "pdf");
    assert "application" + "/" + "pdf" == "application/pdf";
  }

  lemma ImageStarIsAnImage(jpg: DataItem)
    requires jpg.kind == "file" && jpg.mimeType == "image/*"
    ensures IsMatchingFile(jpg, [AcceptPair("image", "*")])
  {
    assert IsWord("image") && IsWord("*");
    ParseMimeOfWords("image", "*");
    assert "image" + "/" + "*" == "image/*";
  }

  lemma FilterOfThreeItems(x: DataItem, y: DataItem, z: DataItem, accepts: seq<AcceptPair>)
    requires !IsMatchingFile(x, accepts) && IsMatchingFile(y, accepts) && IsMatchingFile(z, accepts)
    ensures Filter([x, y, z], Matcher(accepts)) == [y, z]
  {
    FilterOfThree(x, y, z, Matcher(accepts));
  }

  /**
   * Accepting any image, with `multiple`, over [pdf, jpg, jpg] keeps the two
   * jpgs in order (the jpgs carry the type written in the test).
   */
  lemma ImageWildcardKeepsImagesInOrder(pdf: DataItem, jpg2: DataItem, jpg3: DataItem)
    requires pdf.kind == "file" && pdf.mimeType == "application/pdf"
    requires jpg2.kind == "file" && jpg2.mimeType == "image/*"
    requires jpg3.kind == "file" && jpg3.mimeType == "image/*"
    ensures GetMatchingDataItems([pdf, jpg2, jpg3], "image/*", true) == [Some(jpg2), Some(jpg3)]
  {
    ParseImageWildcard();
    var accepts := [AcceptPair("image", "*")];
    PdfIsNotAnImage(pdf);
    ImageStarIsAnImage(jpg2);
    ImageStarIsAnImage(jpg3);
    FilterOfThreeItems(pdf, jpg2, jpg3, accepts);
    MultipleSelectsAdmitted([pdf, jpg2, jpg3], "image/*");
  }
}
