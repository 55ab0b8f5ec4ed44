/**
 * The rationale image service (src/app/services/rationaleImageService.ts):
 * `extractImages`, which pairs each rationale paragraph of the converted
 * document with the image that follows it; `base64ToFile`, which turns a
 * `data:` URL (section 3 of RFC 2397) into a file; and `generateFileName`.
 *
 * The HTML the document converter produces is abstracted as the flat
 * sequence of sibling elements the walk moves along.
 */
module RationaleImages {
  import opened Wrappers
  import opened JsString
  import opened Base64

  /**
   * A sibling element: a paragraph with its text content, a bare `<img>`,
   * or any other element. `images` are the `src` attributes of the `<img>`
   * elements inside it, in document order (a missing `src` is the empty
   * string, which every test below treats alike).
   */
  datatype Node =
    | Paragraph(text: string, images: seq<string>)
    | Image(src: string)
    | Element(images: seq<string>)

  /** What `find("img")` sees: the images inside the element (none inside a bare image). */
  function Inner(n: Node): seq<string> {
    match n
    case Paragraph(_, images) => images
    case Image(_) => []
    case Element(images) => images
  }

  /** A paragraph whose trimmed text starts with the rationale flag. */
  predicate IsFlagParagraph(n: Node, flag: string) {
    n.Paragraph? && StartsWith(Trim(n.text), flag)
  }

  /** The walk stops at an element holding an image, or at a paragraph with text. */
  predicate Stops(n: Node) {
    Inner(n) != [] || (n.Paragraph? && Trim(n.text) != [])
  }

  /** Where the forward walk that starts at sibling `j` stops (`|nodes|`: it runs off the end). */
  function WalkEnd(nodes: seq<Node>, j: nat): (k: nat)
    requires j <= |nodes|
    ensures j <= k <= |nodes|
    decreases |nodes| - j
  {
    if j == |nodes| || Stops(nodes[j]) then j else WalkEnd(nodes, j + 1)
  }

  /** The walk passes over every element before the one it stops at, which is the first that stops it. */
  lemma {:induction false} WalkEndIsFirstStop(nodes: seq<Node>, j: nat)
    requires j <= |nodes|
    ensures var k := WalkEnd(nodes, j);
            (forall m :: j <= m < k ==> !Stops(nodes[m])) && (k < |nodes| ==> Stops(nodes[k]))
    decreases |nodes| - j
  {
    if j < |nodes| && !Stops(nodes[j]) {
      WalkEndIsFirstStop(nodes, j + 1);
    }
  }

  /** The `src` the walk from sibling `j` finds: the first image inside the element it stops at. */
  function ImageAfter(nodes: seq<Node>, j: nat): (r: Option<string>)
    requires j <= |nodes|
  {
    var k := WalkEnd(nodes, j);
    if k < |nodes| && Inner(nodes[k]) != [] then Some(Inner(nodes[k])[0]) else None
  }

  // ----- data: URLs and files -----

  /** The two groups of `/^data:([^;]+);base64,(.+)$/`. */
  datatype DataUrl = DataUrl(mimeType: string, payload: string)

  /** The characters `.` does not match in a JavaScript regular expression. */
  predicate IsLineTerminator(c: char) {
    c == '\n' || c == '\r' || c == '\U{2028}' || c == '\U{2029}'
  }

  /** What the pattern demands of its two groups. */
  predicate WellFormedParts(mimeType: string, payload: string) {
    mimeType != [] && ';' !in mimeType &&
    payload != [] && forall i :: 0 <= i < |payload| ==> !IsLineTerminator(payload[i])
  }

  /** Matching the pattern: the type runs to the first ';', which must open ";base64,". */
  function ParseDataUrl(s: string): (r: Option<DataUrl>)
  {
    if !StartsWith(s, "data:") then None
    else
      var rest := s[5..];
      match FirstIndexOfChar(rest, ';')
      case None => None
      case Some(k) =>
        var mimeType, tail := rest[..k], rest[k..];
        if k == 0 || !StartsWith(tail, ";base64,") then None
        else
          var payload := tail[8..];
          if !WellFormedParts(mimeType, payload) then None
          else Some(DataUrl(mimeType, payload))
  }

  /** A match has well-formed groups, and the URL is made of them. */
  lemma ParseDataUrlSound(s: string)
    requires ParseDataUrl(s).Some?
    ensures var u := ParseDataUrl(s).value;
            WellFormedParts(u.mimeType, u.payload) && s == "data:" + u.mimeType + ";base64," + u.payload
  {
    var rest := s[5..];
    var k := FirstIndexOfChar(rest, ';').value;
    var tail := rest[k..];
    assert s == s[..5] + rest && rest == rest[..k] + tail && tail == tail[..8] + tail[8..];
  }

  /** Every string of the pattern's form matches it, with those groups. */
  lemma ParseDataUrlOf(mimeType: string, payload: string)
    requires WellFormedParts(mimeType, payload)
    ensures ParseDataUrl("data:" + mimeType + ";base64," + payload) == Some(DataUrl(mimeType, payload))
  {
    var s := "data:" + mimeType + ";base64," + payload;
    var rest := s[5..];
    assert rest == mimeType + (";base64," + payload);
    var k := FirstIndexOfChar(rest, ';');
    assert rest[|mimeType|] == ';';
    if k.None? {
      assert false;
    } else if k.value < |mimeType| {
      assert false;
    } else if k.value > |mimeType| {
      assert false;
    }
    assert rest[..|mimeType|] == mimeType;
    assert rest[|mimeType|..] == ";base64," + payload;
  }

  /** The pattern matches exactly the strings of that form, and gives back their parts. */
  lemma ParseDataUrlIff(s: string, mimeType: string, payload: string)
    ensures ParseDataUrl(s) == Some(DataUrl(mimeType, payload)) <==>
            s == "data:" + mimeType + ";base64," + payload && WellFormedParts(mimeType, payload)
  {
    if s == "data:" + mimeType + ";base64," + payload && WellFormedParts(mimeType, payload) {
      ParseDataUrlOf(mimeType, payload);
    }
    if ParseDataUrl(s).Some? {
      ParseDataUrlSound(s);
    }
  }

  /** A file: its name, its `type` and its bytes. */
  datatype File = File(name: string, mimeType: string, bytes: seq<byte>)

  function AsciiLower(c: char): (d: char) {
    if 'A' <= c <= 'Z' then (c as int + 32) as char else c
  }

  /**
   * The `type` a `File` keeps (File API, constructor steps): the empty string
   * if the given type has a character outside U+0020..U+007E, otherwise the
   * type in ASCII lower case.
   */
  function FileType(t: string): (r: string)
    ensures |r| == |t| || r == []
    ensures (forall i :: 0 <= i < |t| ==> ' ' <= t[i] <= '~' && !('A' <= t[i] <= 'Z')) ==> r == t
  {
    if forall i :: 0 <= i < |t| ==> ' ' <= t[i] <= '~' then seq(|t|, i requires 0 <= i < |t| => AsciiLower(t[i]))
    else []
  }

  /** `Uint8Array` stores each char code modulo 256. */
  function CharCodes(s: string): (b: seq<byte>)
    ensures |b| == |s| && forall i :: 0 <= i < |s| ==> b[i] as int == s[i] as int % 256
  {
    seq(|s|, i requires 0 <= i < |s| => (s[i] as int % 256) as byte)
  }

  /** The file `base64ToFile` builds, or the message of the error it throws. */
  function DataUrlToFile(data: string, filename: string): (r: Result<File, string>)
    ensures r.Success? ==> r.value.name == filename
    ensures r.Success? <==> ParseDataUrl(data).Some? && Atob(ParseDataUrl(data).value.payload).Some?
  {
    match ParseDataUrl(data)
    case None => Failure("Invalid base64 data format")
    case Some(u) =>
      match Atob(u.payload)
      case None => Failure("InvalidCharacterError")
      case Some(binary) => Success(File(filename, FileType(u.mimeType), CharCodes(binary)))
  }

  /** base64ToFile: match the URL, decode the payload, copy the char codes into a byte array. */
  method Base64ToFile(base64Data: string, filename: string) returns (r: Result<File, string>)
    ensures r == DataUrlToFile(base64Data, filename)
  {
    var matches := ParseDataUrl(base64Data);
    if matches.None? {
      return Failure("Invalid base64 data format");
    }
    var mimeType, base64String := matches.value.mimeType, matches.value.payload;
    var binaryString := Atob(base64String);
    if binaryString.None? {
      return Failure("InvalidCharacterError");
    }
    var bytes := CopyCharCodes(binaryString.value);
    r := Success(File(filename, FileType(mimeType), bytes[..]));
  }

  /** `new Uint8Array(n)` filled with `binaryString.charCodeAt(i)`, one index at a time. */
  method CopyCharCodes(binary: string) returns (bytes: array<byte>)
    ensures fresh(bytes) && bytes[..] == CharCodes(binary)
  {
    bytes := new byte[|binary|];
    for i := 0 to |binary|
      invariant forall m :: 0 <= m < i ==> bytes[m] as int == binary[m] as int % 256
    {
      bytes[i] := (binary[i] as int % 256) as byte;
    }
    assert bytes[..] == CharCodes(binary);
  }

  /** The padded encoding of some bytes is a payload the pattern accepts. */
  lemma EncodedPayload(mimeType: string, b: seq<byte>)
    requires mimeType != [] && ';' !in mimeType && |b| > 0
    ensures WellFormedParts(mimeType, Encode(b))
  {
    var e := Encode(b);
    EncodeChars(b);
    forall i | 0 <= i < |e| ensures !IsLineTerminator(e[i]) {
      assert IsBase64Char(e[i]) || e[i] == '=';
    }
  }

  /** Storing a binary string's char codes gives back its bytes. */
  lemma CharCodesOfBinary(b: seq<byte>)
    ensures CharCodes(BinaryString(b)) == b
  {
    var c := CharCodes(BinaryString(b));
    assert forall i :: 0 <= i < |b| ==> c[i] == b[i];
  }

  /** A file encoded as a base64 `data:` URL comes back with its bytes. */
  lemma DataUrlRoundTrip(mimeType: string, b: seq<byte>, filename: string)
    requires mimeType != [] && ';' !in mimeType && |b| > 0
    ensures DataUrlToFile("data:" + mimeType + ";base64," + Encode(b), filename) ==
            Success(File(filename, FileType(mimeType), b))
  {
    var url := "data:" + mimeType + ";base64," + Encode(b);
    assert ParseDataUrl(url) == Some(DataUrl(mimeType, Encode(b))) by {
      EncodedPayload(mimeType, b);
      ParseDataUrlOf(mimeType, Encode(b));
    }
    assert Atob(Encode(b)) == Some(BinaryString(b)) by {
      AtobEncode(b);
    }
    CharCodesOfBinary(b);
  }

  // ----- extractImages -----

  /** One extracted image and the ordinal of the rationale paragraph it follows. */
  datatype ExtractedImage = ExtractedImage(file: File, rationaleIndex: nat)

  /** The file name `extractImages` gives the image of rationale `index`. */
  function RationaleName(index: nat): string {
    "rationale-" + NumberToString(index)
  }

  /** The number of rationale paragraphs among the first `n` siblings. */
  function FlagCount(nodes: seq<Node>, flag: string, n: nat): (c: nat)
    requires n <= |nodes|
    ensures c <= n
  {
    if n == 0 then 0
    else FlagCount(nodes, flag, n - 1) + (if IsFlagParagraph(nodes[n - 1], flag) then 1 else 0)
  }

  /**
   * What the rationale paragraph at `i`, the `index`-th one, contributes: an
   * entry when the walk finds an image whose source is a `data:image/` URL,
   * nothing otherwise, or the error converting it throws.
   */
  function EntryFor(nodes: seq<Node>, i: nat, index: nat): (r: Result<Option<ExtractedImage>, string>)
    requires i < |nodes|
    ensures r.Success? && r.value.Some? ==> r.value.value.rationaleIndex == index
  {
    match ImageAfter(nodes, i + 1)
    case None => Success(None)
    case Some(src) =>
      if !StartsWith(src, "data:image/") then Success(None)
      else
        match DataUrlToFile(src, RationaleName(index))
        case Failure(e) => Failure(e)
        case Success(file) => Success(Some(ExtractedImage(file, index)))
  }

  /** A `data:image/` source always gives an entry, unless converting it throws. */
  lemma EntryForDataImage(nodes: seq<Node>, i: nat, index: nat)
    requires i < |nodes|
    requires ImageAfter(nodes, i + 1).Some? && StartsWith(ImageAfter(nodes, i + 1).value, "data:image/")
    ensures var r := EntryFor(nodes, i, index); r.Failure? || r.value.Some?
  {
  }

  /** The callback run over the first `n` siblings: the entries so far, or the first error. */
  function Scan(nodes: seq<Node>, flag: string, n: nat): (r: Result<seq<ExtractedImage>, string>)
    requires n <= |nodes|
  {
    if n == 0 then Success([])
    else
      match Scan(nodes, flag, n - 1)
      case Failure(e) => Failure(e)
      case Success(found) =>
        if !IsFlagParagraph(nodes[n - 1], flag) then Success(found)
        else
          match EntryFor(nodes, n - 1, FlagCount(nodes, flag, n - 1))
          case Failure(e) => Failure(e)
          case Success(None) => Success(found)
          case Success(Some(x)) => Success(found + [x])
  }

  /** The result of `extractImages`: every entry, or none at all once anything threw. */
  function ExtractedImages(nodes: seq<Node>, flag: string): seq<ExtractedImage> {
    match Scan(nodes, flag, |nodes|)
    case Failure(_) => []
    case Success(found) => found
  }

  /** extractImages over the sibling sequence, with its counter and its forward walk. */
  method ExtractImages(nodes: seq<Node>, rationaleFlag: string) returns (images: seq<ExtractedImage>)
    ensures images == ExtractedImages(nodes, rationaleFlag)
  {
    var extracted: seq<ExtractedImage> := [];
    var rationaleIndex: nat := 0;
    var i := 0;
    while i < |nodes|
      invariant i <= |nodes|
      invariant Scan(nodes, rationaleFlag, i) == Success(extracted)
      invariant rationaleIndex == FlagCount(nodes, rationaleFlag, i)
    {
      if IsFlagParagraph(nodes[i], rationaleFlag) {
        var entry := ConvertImageAfter(nodes, i, rationaleIndex);
        if entry.Failure? {
          assert Scan(nodes, rationaleFlag, i + 1).Failure?;
          ScanFailureSticks(nodes, rationaleFlag, i + 1, |nodes|);
          return [];
        }
        if entry.value.Some? {
          extracted := extracted + [entry.value.value];
        }
        rationaleIndex := rationaleIndex + 1;
      }
      i := i + 1;
    }
    images := extracted;
  }

  /**
   * The callback's work for the rationale paragraph at `i`, the `index`-th:
   * walk to the next image and convert it when it is a `data:image/` URL.
   */
  method ConvertImageAfter(nodes: seq<Node>, i: nat, index: nat) returns (entry: Result<Option<ExtractedImage>, string>)
    requires i < |nodes|
    ensures entry == EntryFor(nodes, i, index)
  {
    var src := FindImageAfter(nodes, i + 1);
    if src.Some? && StartsWith(src.value, "data:image/") {
      var file := Base64ToFile(src.value, RationaleName(index));
      if file.Failure? {
        return Failure(file.error);
      }
      return Success(Some(ExtractedImage(file.value, index)));
    }
    return Success(None);
  }

  /**
   * The forward walk over the next siblings: the first image inside the
   * first element that holds one, unless a paragraph with text comes first.
   */
  method FindImageAfter(nodes: seq<Node>, start: nat) returns (src: Option<string>)
    requires start <= |nodes|
    ensures src == ImageAfter(nodes, start)
  {
    var next := start;
    src := None;
    while next < |nodes|
      invariant start <= next <= |nodes|
      invariant WalkEnd(nodes, start) == WalkEnd(nodes, next)
      invariant src == None
    {
      if Inner(nodes[next]) != [] {
        src := Some(Inner(nodes[next])[0]);
        return;
      }
      if nodes[next].Paragraph? && Trim(nodes[next].text) != [] {
        return;
      }
      next := next + 1;
    }
  }

  // ----- what extractImages promises -----

  /** Once a conversion has thrown, the whole scan has failed. */
  lemma {:induction false} ScanFailureSticks(nodes: seq<Node>, flag: string, m: nat, n: nat)
    requires m <= n <= |nodes|
    requires Scan(nodes, flag, m).Failure?
    ensures Scan(nodes, flag, n).Failure?
    decreases n - m
  {
    if m < n {
      ScanFailureSticks(nodes, flag, m, n - 1);
    }
  }

  /** No partial result: an image that fails to convert empties the whole result. */
  lemma AllOrNothing(nodes: seq<Node>, flag: string, i: nat)
    requires i < |nodes| && IsFlagParagraph(nodes[i], flag)
    requires EntryFor(nodes, i, FlagCount(nodes, flag, i)).Failure?
    ensures ExtractedImages(nodes, flag) == []
  {
    if Scan(nodes, flag, i).Success? {
      assert Scan(nodes, flag, i + 1).Failure?;
    }
    ScanFailureSticks(nodes, flag, if Scan(nodes, flag, i).Success? then i + 1 else i, |nodes|);
  }

  /** The counter gains one for each rationale paragraph, whatever follows it. */
  lemma FlagCountStep(nodes: seq<Node>, flag: string, i: nat)
    requires i < |nodes|
    ensures FlagCount(nodes, flag, i + 1) == FlagCount(nodes, flag, i) + (if IsFlagParagraph(nodes[i], flag) then 1 else 0)
  {
  }

  /** An empty flag makes every paragraph a rationale paragraph. */
  lemma {:induction false} EmptyFlagCountsParagraphs(nodes: seq<Node>, n: nat)
    requires n <= |nodes|
    ensures FlagCount(nodes, "", n) == |set i | 0 <= i < n && nodes[i].Paragraph?|
  {
    if n > 0 {
      EmptyFlagCountsParagraphs(nodes, n - 1);
      var before := set i | 0 <= i < n - 1 && nodes[i].Paragraph?;
      var after := set i | 0 <= i < n && nodes[i].Paragraph?;
      FlagCountStep(nodes, "", n - 1);
      if nodes[n - 1].Paragraph? {
        assert IsFlagParagraph(nodes[n - 1], "") by {
          assert Trim(nodes[n - 1].text)[..0] == "";
        }
        assert n - 1 !in before;
        assert after == before + {n - 1};
      } else {
        assert after == before;
      }
    }
  }

  /**
   * One more sibling: the scan so far succeeded, and the sibling adds the
   * entry its rationale paragraph finds, or nothing.
   */
  lemma ScanStep(nodes: seq<Node>, flag: string, n: nat)
    requires 0 < n <= |nodes| && Scan(nodes, flag, n).Success?
    ensures Scan(nodes, flag, n - 1).Success?
    ensures IsFlagParagraph(nodes[n - 1], flag) ==> EntryFor(nodes, n - 1, FlagCount(nodes, flag, n - 1)).Success?
    ensures var before, after := Scan(nodes, flag, n - 1).value, Scan(nodes, flag, n).value;
            var e := EntryFor(nodes, n - 1, FlagCount(nodes, flag, n - 1));
            if IsFlagParagraph(nodes[n - 1], flag) && e.value.Some? then after == before + [e.value.value]
            else after == before
  {
  }

  /** Every entry's ordinal is below `bound`. */
  predicate IndicesBelow(found: seq<ExtractedImage>, bound: nat) {
    forall k :: 0 <= k < |found| ==> found[k].rationaleIndex < bound
  }

  /** Ordinals strictly increase along the entries, so no ordinal has two. */
  predicate IndicesIncreasing(found: seq<ExtractedImage>) {
    forall k, l :: 0 <= k < l < |found| ==> found[k].rationaleIndex < found[l].rationaleIndex
  }

  /** Entries come in strictly increasing rationale order, each below the number of rationale paragraphs. */
  lemma {:induction false} ScanIndices(nodes: seq<Node>, flag: string, n: nat)
    requires n <= |nodes|
    requires Scan(nodes, flag, n).Success?
    ensures IndicesBelow(Scan(nodes, flag, n).value, FlagCount(nodes, flag, n))
    ensures IndicesIncreasing(Scan(nodes, flag, n).value)
  {
    if n > 0 {
      ScanStep(nodes, flag, n);
      ScanIndices(nodes, flag, n - 1);
      FlagCountStep(nodes, flag, n - 1);
      var before := Scan(nodes, flag, n - 1).value;
      var after := Scan(nodes, flag, n).value;
      var e := EntryFor(nodes, n - 1, FlagCount(nodes, flag, n - 1));
      if IsFlagParagraph(nodes[n - 1], flag) && e.value.Some? {
        var x := e.value.value;
        assert after == before + [x];
        assert x.rationaleIndex == FlagCount(nodes, flag, n - 1);
        assert forall k :: 0 <= k < |before| ==> after[k] == before[k];
      }
    }
  }

  /** Each entry is the converted image found after the rationale paragraph with its ordinal. */
  lemma {:induction false} ScanEntriesSound(nodes: seq<Node>, flag: string, n: nat, k: nat)
    requires n <= |nodes|
    requires Scan(nodes, flag, n).Success? && k < |Scan(nodes, flag, n).value|
    ensures var x := Scan(nodes, flag, n).value[k];
            exists i :: 0 <= i < n && IsFlagParagraph(nodes[i], flag) &&
              FlagCount(nodes, flag, i) == x.rationaleIndex &&
              ImageAfter(nodes, i + 1).Some? && StartsWith(ImageAfter(nodes, i + 1).value, "data:image/") &&
              DataUrlToFile(ImageAfter(nodes, i + 1).value, RationaleName(x.rationaleIndex)) == Success(x.file)
  {
    var found := Scan(nodes, flag, n - 1);
    if found.Success? && k < |found.value| {
      ScanEntriesSound(nodes, flag, n - 1, k);
      assert Scan(nodes, flag, n).value[k] == found.value[k];
    } else {
      assert IsFlagParagraph(nodes[n - 1], flag);
    }
  }

  /** A successful scan extends the scan one sibling shorter. */
  lemma ScanGrows(nodes: seq<Node>, flag: string, n: nat)
    requires 0 < n <= |nodes| && Scan(nodes, flag, n).Success?
    ensures Scan(nodes, flag, n - 1).Success?
    ensures var before, after := Scan(nodes, flag, n - 1).value, Scan(nodes, flag, n).value;
            |before| <= |after| && after[..|before|] == before
  {
    ScanStep(nodes, flag, n);
  }

  /** A rationale paragraph followed by a `data:image/` image adds the last entry, with its ordinal. */
  lemma ScanAddsEntry(nodes: seq<Node>, flag: string, n: nat)
    requires 0 < n <= |nodes| && Scan(nodes, flag, n).Success? && IsFlagParagraph(nodes[n - 1], flag)
    requires ImageAfter(nodes, n).Some? && StartsWith(ImageAfter(nodes, n).value, "data:image/")
    ensures var after := Scan(nodes, flag, n).value;
            |after| > 0 && after[|after| - 1].rationaleIndex == FlagCount(nodes, flag, n - 1)
  {
    ScanStep(nodes, flag, n);
    EntryForDataImage(nodes, n - 1, FlagCount(nodes, flag, n - 1));
  }

  /** Some entry carries the ordinal `index`. */
  predicate HasIndex(found: seq<ExtractedImage>, index: nat) {
    exists k :: 0 <= k < |found| && found[k].rationaleIndex == index
  }

  /** An entry of a prefix is an entry of the whole. */
  lemma HasIndexExtended(before: seq<ExtractedImage>, after: seq<ExtractedImage>, index: nat)
    requires |before| <= |after| && after[..|before|] == before && HasIndex(before, index)
    ensures HasIndex(after, index)
  {
    var k :| 0 <= k < |before| && before[k].rationaleIndex == index;
    assert after[..|before|][k] == after[k];
  }

  /** Every rationale paragraph followed by a `data:image/` image has its entry. */
  lemma {:induction false} ScanEntriesComplete(nodes: seq<Node>, flag: string, n: nat, i: nat)
    requires i < n <= |nodes|
    requires Scan(nodes, flag, n).Success? && IsFlagParagraph(nodes[i], flag)
    requires ImageAfter(nodes, i + 1).Some? && StartsWith(ImageAfter(nodes, i + 1).value, "data:image/")
    ensures HasIndex(Scan(nodes, flag, n).value, FlagCount(nodes, flag, i))
  {
    var after := Scan(nodes, flag, n).value;
    if i < n - 1 {
      ScanGrows(nodes, flag, n);
      ScanEntriesComplete(nodes, flag, n - 1, i);
      HasIndexExtended(Scan(nodes, flag, n - 1).value, after, FlagCount(nodes, flag, i));
    } else {
      ScanAddsEntry(nodes, flag, n);
      assert after[|after| - 1].rationaleIndex == FlagCount(nodes, flag, i);
    }
  }

  /** The walk finds an image exactly when the first element that stops it holds one. */
  lemma ImageAfterIff(nodes: seq<Node>, j: nat, src: string)
    requires j <= |nodes|
    ensures ImageAfter(nodes, j) == Some(src) <==>
            exists k :: j <= k < |nodes| && Inner(nodes[k]) != [] && Inner(nodes[k])[0] == src &&
              forall m :: j <= m < k ==> !Stops(nodes[m])
  {
    var e := WalkEnd(nodes, j);
    WalkEndIsFirstStop(nodes, j);
    if exists k :: j <= k < |nodes| && Inner(nodes[k]) != [] && Inner(nodes[k])[0] == src &&
                   forall m :: j <= m < k ==> !Stops(nodes[m]) {
      var k :| j <= k < |nodes| && Inner(nodes[k]) != [] && Inner(nodes[k])[0] == src &&
               forall m :: j <= m < k ==> !Stops(nodes[m]);
      assert Stops(nodes[k]);
      assert e == k;
    }
  }

  /** An element with both text and an image ends the walk with its image. */
  lemma ImageBeforeText(nodes: seq<Node>, j: nat, text: string, images: seq<string>)
    requires j < |nodes| && nodes[j] == Paragraph(text, images)
    requires Trim(text) != [] && images != []
    ensures ImageAfter(nodes, j) == Some(images[0])
  {
  }

  /** A bare image next to the paragraph is passed over, as are empty paragraphs. */
  lemma PassedOver(nodes: seq<Node>, j: nat)
    requires j < |nodes|
    requires nodes[j].Image? || nodes[j] == Paragraph([], [])
    ensures ImageAfter(nodes, j) == ImageAfter(nodes, j + 1)
  {
  }

  // ----- generateFileName -----

  /** The storage path of an uploaded image; `timestamp` is `Date.now()` at the call. */
  function GenerateFileName(documentId: string, rationaleIndex: Option<nat>, timestamp: nat): (r: string)
    ensures rationaleIndex.Some? ==>
              r == documentId + "/rationale-" + NumberToString(rationaleIndex.value) + "-" + NumberToString(timestamp) + ".png"
    ensures rationaleIndex.None? ==> r == documentId + "/rationale-" + NumberToString(timestamp) + ".png"
    ensures |r| > |documentId| + 11 && r[..|documentId|] == documentId && r[|r| - 4..] == ".png"
  {
    var stamp := match rationaleIndex
      case Some(i) => NumberToString(i) + "-" + NumberToString(timestamp)
      case None => NumberToString(timestamp);
    documentId + "/rationale-" + stamp + ".png"
  }

  /** Two digit strings joined by '-' split back at that '-'. */
  lemma SplitAtDash(a: string, b: string, c: string, d: string)
    requires forall i :: 0 <= i < |a| ==> IsDigit(a[i])
    requires forall i :: 0 <= i < |c| ==> IsDigit(c[i])
    requires a + "-" + b == c + "-" + d
    ensures a == c && b == d
  {
    var s := a + "-" + b;
    assert forall i :: 0 <= i < |a| ==> s[i] == a[i];
    assert forall i :: 0 <= i < |c| ==> s[i] == c[i];
    assert s[|a|] == '-' && s[|c|] == '-';
    assert |a| == |c|;
    assert a == s[..|a|] && c == s[..|c|];
    assert b == s[|a| + 1..] && d == s[|c| + 1..];
  }

  /** Equal strings with the same prefix and suffix have the same middle. */
  lemma SameMiddle(p: string, m1: string, m2: string, q: string)
    requires p + m1 + q == p + m2 + q
    ensures m1 == m2
  {
    var s := p + m1 + q;
    assert m1 == s[|p|..|s| - |q|];
  }

  /** A decimal numeral holds no '-'. */
  lemma NoDashInNumber(n: nat)
    ensures '-' !in NumberToString(n)
  {
  }

  /** Within one document, the path determines the index (or its absence) and the timestamp. */
  lemma GenerateFileNameInjective(documentId: string, i1: Option<nat>, t1: nat, i2: Option<nat>, t2: nat)
    requires GenerateFileName(documentId, i1, t1) == GenerateFileName(documentId, i2, t2)
    ensures i1 == i2 && t1 == t2
  {
    var p := documentId + "/rationale-";
    var m1 := if i1.Some? then NumberToString(i1.value) + "-" + NumberToString(t1) else NumberToString(t1);
    var m2 := if i2.Some? then NumberToString(i2.value) + "-" + NumberToString(t2) else NumberToString(t2);
    SameMiddle(p, m1, m2, ".png");
    NoDashInNumber(t1);
    NoDashInNumber(t2);
    if i1.Some? {
      assert m1[|NumberToString(i1.value)|] == '-';
    }
    if i2.Some? {
      assert m2[|NumberToString(i2.value)|] == '-';
    }
    if i1.Some? && i2.Some? {
      SplitAtDash(NumberToString(i1.value), NumberToString(t1), NumberToString(i2.value), NumberToString(t2));
      NumberToStringInjective(i1.value, i2.value);
    }
    NumberToStringInjective(t1, t2);
  }
}
