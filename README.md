# Signature removal and Postal webhook signatures, modelled in Dafny

This project models two parts of the mail tools.

**`removeSignatures`** (packages/mailtools/src/removeSignatures.ts) works on a
loaded HTML document (a cheerio `$`). It does four things:

- finds the signature elements with a fixed list of CSS selectors, falling back
  to an Outlook heuristic on Microsoft documents;
- builds the signature's HTML and its plain text;
- removes every signature from the document;
- reports whether one was found.

**`validatePostalWebhookSignature`** (apps/mailtools/src/lib/postal/validateSignature.ts)
checks a Postal webhook. It tries each configured public key in turn. Each key
is wrapped as a PEM block by `chunkSplit`, and the body is re-encoded the way
Ruby's JSON library writes it by `jsonToRubyString`.

How the document is modelled:

- It is a forest of `Node`s (`Tree`). An element carries an identity that stands
  for object identity in the DOM, a tag, its attributes and its children.
- The `Dom.Document` class holds the forest and the next free identity. Its
  methods are the cheerio mutations the code uses: `replaceWith`, `before`,
  `remove`, and the creation of a new node.

How the code is modelled:

- `RemoveSignatures.RemoveSignatures` and the methods it calls follow the source
  statement by statement, loops included.
- Each of these methods is proved against a closed-form function of the
  document it starts from. `Extract` gives the result and the search tree after
  the extraction; `RemovalOutcome` gives the document after the removal.
- The lemmas then state what the result means: which element the HTML comes
  from, what the plain text keeps, and what the removal takes away.

The Postal code is modelled the same way. Its functions mirror the string
operations of the source (`String.prototype.match` with a global regular
expression, `join`, `JSON.stringify`, `replace`, `toString(16)`, `slice(-4)`).
The lemmas connect them to reference definitions:

- cutting a key into 64-character lines;
- deleting line terminators;
- a JSON string parser that reads the re-encoded body back.

## Model

| member | source | states |
|---|---|---|
| RemoveSignatures.RemoveSignatures | packages/mailtools/src/removeSignatures.ts:8-77 | the result is the extraction from the search tree (the live document with `cleanedQuotations`, otherwise the copy without quotations); the live document ends as the removal leaves the document (the one the extraction changed, with `cleanedQuotations`) |
| RemoveSignatures.CopyDocument | packages/mailtools/src/removeSignatures.ts:30 | the copy is a new document: the first element's content under a new `html` root without attributes |
| RemoveSignatures.FindAllSignatures | packages/mailtools/src/removeSignatures.ts:82-106 | the selector matches in document order, or the Outlook run when the list finds nothing on a document whose `html` has a Microsoft `xmlns:m`; only the Outlook path changes the document |
| RemoveSignatures.FindAllSignaturesOutlook | packages/mailtools/src/removeSignatures.ts:108-121 | the run is moved, node by node and in order, out of the document into a new `div` with a fresh identity; the holder's identities are unique and below `nextId` |
| RemoveSignatures.FlattenDivs | packages/mailtools/src/removeSignatures.ts:43-51 | visiting every div found below the selection, in document order, and replacing each one whose only element child is a div by that child, yields `FlattenBelow` |
| RemoveSignatures.InsertLineBreaks | packages/mailtools/src/removeSignatures.ts:56-61 | a "\n" text node is put before every div and p found below the selection except the first, and nothing else changes |
| RemoveSignatures.RemoveAll | packages/mailtools/src/removeSignatures.ts:72 | removing the selected elements one by one removes exactly those elements, each with its subtree |
| RemoveSignatures.ExtractFrom | packages/mailtools/src/removeSignatures.ts:43-66 | the result is `ResultOf` the scope and selection (found iff the selection is non-empty, HTML of the flattened first element, plain text after the line breaks) and the scope ends flattened and broken as `Broken` states |
| RemoveSignatures.ExtractSignature | packages/mailtools/src/removeSignatures.ts:37-66 | the result and the search tree are those of the closed form `Extract` |
| RemoveSignatures.RemoveFound | packages/mailtools/src/removeSignatures.ts:68-72 | the document ends as `RemovalOutcome`: the matches are removed, or the Outlook run has been moved out by the search |
| RemoveSignatures.DidFindSignatureExactly | packages/mailtools/src/removeSignatures.ts:74 | a signature is reported iff the selector list matches or the document is a Microsoft one, even when the Outlook run is empty |
| RemoveSignatures.HtmlExactlyWhenFound | packages/mailtools/src/removeSignatures.ts:53 | the HTML is non-null iff a signature is reported |
| RemoveSignatures.NotFoundIsEmpty | packages/mailtools/src/removeSignatures.ts:16-20 | when nothing is found the result is `didFindSignature` false, plain text "" and HTML null |
| RemoveSignatures.HtmlIsFirstMatchFlattened | packages/mailtools/src/removeSignatures.ts:43-53 | the HTML is the content of the first match in document order, which matches the selector list, with its div chains collapsed; on the Outlook path it is the moved run; no div in it has a single div as its only element child |
| RemoveSignatures.FindFirstMatch | packages/mailtools/src/removeSignatures.ts:53 | the first element of a selection of the matches is the first match listed, and it exists iff there is a match |
| RemoveSignatures.PlainTextNormalised | packages/mailtools/src/removeSignatures.ts:62-66 | the plain text neither starts nor ends with whitespace and has no two adjacent newlines |
| RemoveSignatures.PlainTextKeepsText | packages/mailtools/src/removeSignatures.ts:56-66 | apart from whitespace, the plain text is the text of the selected elements after the flattening, element after element |
| RemoveSignatures.SelectionTextBreakSet | packages/mailtools/src/removeSignatures.ts:56-63 | the inserted line breaks change only the whitespace of the text of the selection |
| RemoveSignatures.RemovalLeavesNoSignature | packages/mailtools/src/removeSignatures.ts:69-72 | after the removal no element of the document matches the selector list |
| RemoveSignatures.RemovalDeletesOnlySignatures | packages/mailtools/src/removeSignatures.ts:69-72 | outside the Outlook path, the removal takes away exactly the matches with their subtrees and nothing else |
| RemoveSignatures.CleanedRemovalDeletesOnlySignatures | packages/mailtools/src/removeSignatures.ts:25-27 | with `cleanedQuotations`, the removal runs on the tree the extraction changed and still leaves exactly the document without its matches |
| RemoveSignatures.CopyNeverOutlook | packages/mailtools/src/removeSignatures.ts:30 | the copy's root has no `xmlns:m`, so the Outlook fallback never runs on it |
| RemoveSignatures.CopyMatches | packages/mailtools/src/removeSignatures.ts:30-31 | when the document holds no match, neither does the copy without quotations |
| RemoveSignatures.UncleanedOutlookUnreported | packages/mailtools/src/removeSignatures.ts:28-34 | without `cleanedQuotations`, an Outlook-only signature is reported as not found (false, "", null), while the removal still moves the run out of the live document |
| Dom.Document.ReplaceWith | packages/mailtools/src/removeSignatures.ts:49 | the div's child takes the div's place; identities stay unique |
| Dom.Document.InsertTextBefore | packages/mailtools/src/removeSignatures.ts:59 | a text node is put just before the element; identities are unchanged |
| Dom.Document.Remove | packages/mailtools/src/removeSignatures.ts:72 | the element goes with its subtree and its identity is no longer in the document |
| Dom.Document.RemoveWhere | packages/mailtools/src/removeSignatures.ts:31 | every node the quotation test selects goes with its subtree |
| Dom.Document.NewId | packages/mailtools/src/removeSignatures.ts:118 | the new node's identity is not in the document |
| Dom.Document.Find | packages/mailtools/src/removeSignatures.ts:44 | the element found has the identity looked for |
| Dom.RemovedAbsent | packages/mailtools/src/removeSignatures.ts:72 | after `remove()` the identity is gone from a document with unique identities |
| Selectors.SignatureRulesSimplified | packages/mailtools/src/removeSignatures.ts:83-95 | an element matches the selector list iff its tag is `signature`, its id is `Signature`, or its class or id contains "signature"; an id `Signature` never contains "signature" |
| Selectors.GmailRuleSubsumed | packages/mailtools/src/removeSignatures.ts:87 | `.gmail_signature` implies the class contains "signature" |
| Selectors.ProtonmailRuleSubsumed | packages/mailtools/src/removeSignatures.ts:88 | `.protonmail_signature_block` implies the class contains "signature" |
| Selectors.MobileRuleSubsumed | packages/mailtools/src/removeSignatures.ts:89 | `#ms-outlook-mobile-signature` implies the id contains "signature" |
| Selectors.CapitalNotContained | packages/mailtools/src/removeSignatures.ts:90 | "Signature" does not contain "signature": the attribute test is case-sensitive |
| Selectors.SignatureIdsInDocumentOrder | packages/mailtools/src/removeSignatures.ts:83-95 | the matches are the matching elements of the document, in document order |
| Selectors.SignatureIdsExact | packages/mailtools/src/removeSignatures.ts:83-95 | an element's identity is among the matches iff the element matches |
| Selectors.SignatureIdsNoDup | packages/mailtools/src/removeSignatures.ts:83-95 | each match is listed once |
| Selectors.SignatureSetMarks | packages/mailtools/src/removeSignatures.ts:83-95 | with unique identities, the identities of the matches mark exactly the matching elements |
| Selectors.UntilBorder | packages/mailtools/src/removeSignatures.ts:117 | `nextUntil` keeps the leading siblings up to the first border-top div, without it; all of them when there is none |
| Selectors.OutlookRunStart | packages/mailtools/src/removeSignatures.ts:113-115 | the run exists iff some element has a child with an `mso-ligatures` or `mso-fareast` style, and it starts at the first such element in document order |
| Selectors.OutlookRun | packages/mailtools/src/removeSignatures.ts:113-117 | a run is non-empty, starts with an element that has a child of Outlook's style, and holds only elements |
| Selectors.OutlookRunShape | packages/mailtools/src/removeSignatures.ts:117-119 | the run holds only identities of the document, unique when the document's are |
| Flatten.FlattenBelowByLoop | packages/mailtools/src/removeSignatures.ts:43-51 | the loop over `find('div')` of the selection equals flattening the content of every outermost selected element |
| Flatten.FlatForestByLoop | packages/mailtools/src/removeSignatures.ts:43-51 | collapsing every div of a forest in document order yields the flat forest |
| Flatten.CollapseAtByFind | packages/mailtools/src/removeSignatures.ts:44-50 | one iteration looks the div up and puts its only div child in its place exactly when its element children are one div |
| Flatten.FlatForestIsFlat | packages/mailtools/src/removeSignatures.ts:43-51 | after the flattening no div has a single div as its only element child |
| Flatten.FindFirstFlattenBelow | packages/mailtools/src/removeSignatures.ts:53 | the first selected element after the flattening is the first before it, with its content flattened |
| Flatten.BelowNoDup | packages/mailtools/src/removeSignatures.ts:43 | `find` lists each element once |
| Flatten.FlattenForestBelowShrinks | packages/mailtools/src/removeSignatures.ts:43-51 | the flattening adds no identity and no element |
| LineBreaks.BreakSetStep | packages/mailtools/src/removeSignatures.ts:59 | one more `before('\n')` on a new element extends the set of elements preceded by a line break |
| LineBreaks.BreakSetAddsOnlyWhitespace | packages/mailtools/src/removeSignatures.ts:56-61 | the line breaks add only whitespace to the text |
| LineBreaks.BreakSetShape | packages/mailtools/src/removeSignatures.ts:56-61 | the line breaks keep every element and identity |
| LineBreaks.FindFirstBreakSet | packages/mailtools/src/removeSignatures.ts:56-63 | after the line breaks, the selection's elements are those before, with the inserted text inside |
| Removal.RemoveSignatureSet | packages/mailtools/src/removeSignatures.ts:69-72 | removing the matches by identity prunes exactly the matching elements |
| Removal.PruneSignaturesLeavesNone | packages/mailtools/src/removeSignatures.ts:69-72 | no match is left once the matches are pruned |
| Removal.FlattenUnderSignatures | packages/mailtools/src/removeSignatures.ts:43-51 | flattening inside matches is invisible once the matches are removed |
| Removal.BreaksUnderSignatures | packages/mailtools/src/removeSignatures.ts:56-61 | line breaks strictly inside matches are invisible once the matches are removed |
| Removal.FlattenKeepsASignature | packages/mailtools/src/removeSignatures.ts:43-51 | the outermost matches survive the flattening, so the second search still finds matches |
| Removal.BreakSetKeepsSignatures | packages/mailtools/src/removeSignatures.ts:56-61 | the line breaks change nothing about the matches |
| SignatureText.PlainTextTrimmed | packages/mailtools/src/removeSignatures.ts:62-66 | the normalised text neither starts nor ends with whitespace |
| SignatureText.PlainTextNoBlankLines | packages/mailtools/src/removeSignatures.ts:66 | the normalised text has no two adjacent newlines |
| SignatureText.PlainTextKeepsNonWhitespace | packages/mailtools/src/removeSignatures.ts:62-66 | the normalisation keeps every non-whitespace character, in order |
| SignatureText.PlainTextEmpty | packages/mailtools/src/removeSignatures.ts:62-66 | the normalised text is empty iff the text is whitespace only |
| SignatureText.TrimSlice | packages/mailtools/src/removeSignatures.ts:64 | `trim` keeps a slice of the text and cuts off only whitespace on either side |
| SignatureText.TrimEnds | packages/mailtools/src/removeSignatures.ts:64 | what `trim` returns neither starts nor ends with whitespace |
| SignatureText.TrimEmpty | packages/mailtools/src/removeSignatures.ts:64 | `trim` returns "" iff the text is whitespace only |
| SignatureText.TrimKeepsNonWhitespace | packages/mailtools/src/removeSignatures.ts:64 | `trim` keeps every non-whitespace character |
| SignatureText.NewlineRunWhitespace | packages/mailtools/src/removeSignatures.ts:66 | a match of `(\s?\n)+` is whitespace only |
| SignatureText.NewlineRunMaximal | packages/mailtools/src/removeSignatures.ts:66 | the greedy match cannot be extended by another `\s?\n` |
| SignatureText.CollapseNoDoubleNewline | packages/mailtools/src/removeSignatures.ts:66 | the replacement leaves no two adjacent newlines |
| SignatureText.CollapseKeepsNonWhitespace | packages/mailtools/src/removeSignatures.ts:66 | the replacement keeps every non-whitespace character, in order |
| SignatureText.CollapseKeepsLast | packages/mailtools/src/removeSignatures.ts:66 | the replacement keeps a final non-whitespace character at the end |
| PostalSignature.ValidatePostalWebhookSignature | apps/mailtools/src/lib/postal/validateSignature.ts:7-29 | the promise resolves with true iff some key verifies the re-encoded body and every key before it returned false; it rejects iff the verifier throws on some key before any key verifies; it resolves with false iff every key returns false (so for no keys); when the verifier never throws, true iff some key verifies |
| PostalSignature.FirstDecisive | apps/mailtools/src/lib/postal/validateSignature.ts:12-28 | keys are tried in order; the first key that verifies or throws decides (true, or a rejection), every key before it returned false, and false comes only after every key returned false |
| PostalSignature.ChunkSplit | apps/mailtools/src/lib/postal/validateSignature.ts:31-41 | the result is `false` iff the key is empty or the size is below 1 |
| PostalSignature.ChunkSplitOfPlainKey | apps/mailtools/src/lib/postal/validateSignature.ts:31-41 | a non-empty key without line terminators is cut into pieces of `chunkSize` characters (the last possibly shorter), each followed by the separator ("\r\n" when it is empty); the pieces put back together are the key |
| PostalSignature.GlobalMatchesDropLineTerminators | apps/mailtools/src/lib/postal/validateSignature.ts:38 | for any key, the pieces of the global match put back together are the key without its line terminators |
| PostalSignature.GlobalMatchesOfPlainText | apps/mailtools/src/lib/postal/validateSignature.ts:38 | on text without line terminators the global match is the cut into `n`-wide pieces followed by one empty match |
| PostalSignature.GlobalMatchesPieces | apps/mailtools/src/lib/postal/validateSignature.ts:38 | every piece of the global match has at most `n` characters and no line terminator |
| PostalSignature.GlobalMatches | apps/mailtools/src/lib/postal/validateSignature.ts:38 | the global match always ends with an empty match |
| PostalSignature.DotRun | apps/mailtools/src/lib/postal/validateSignature.ts:38 | one match of `.{0,n}` is the longest run of at most `n` characters that holds no line terminator |
| PostalSignature.Chunks | apps/mailtools/src/lib/postal/validateSignature.ts:37-39 | the reference cut: pieces of exactly `n` characters but the last, which is non-empty and at most `n`, that put back together give the text |
| PostalSignature.PemShape | apps/mailtools/src/lib/postal/validateSignature.ts:14-17 | a key without line terminators becomes a PEM block of 64-wide CRLF-ended lines; an empty key becomes the text "false" between the delimiters |
| PostalSignature.JsonToRubyStringShape | apps/mailtools/src/lib/postal/validateSignature.ts:43-49 | the re-encoded body is a quotation mark, each character's escape, a quotation mark, with no raw `&`, `<`, `>`, U+2028 or U+2029 left |
| PostalSignature.JsonToRubyStringRoundTrip | apps/mailtools/src/lib/postal/validateSignature.ts:43-49 | the re-encoded body is a JSON string literal that reads back as the original body |
| PostalSignature.EscapeShape | apps/mailtools/src/lib/postal/validateSignature.ts:45-48 | each of the five unsafe characters becomes `\u` and its code in four lowercase hex digits; every other character is escaped as `JSON.stringify` does |
| PostalSignature.RubyReplace | apps/mailtools/src/lib/postal/validateSignature.ts:45-48 | no unsafe character is left, and each one found grew from one character to six |
| PostalSignature.PaddedCodeIsHex4 | apps/mailtools/src/lib/postal/validateSignature.ts:47 | `('0000' + code.toString(16)).slice(-4)` is the four-digit code of each unsafe character |
| PostalSignature.HexString | apps/mailtools/src/lib/postal/validateSignature.ts:47 | `toString(16)` yields at least one lowercase hex digit |
| PostalSignature.Hex4RoundTrip | apps/mailtools/src/lib/postal/validateSignature.ts:47 | four hex digits of a code unit read back as that code unit |
| PostalSignature.EscapeAllReads | apps/mailtools/src/lib/postal/validateSignature.ts:44-48 | the escaped characters read back as the original string |
| PostalSignature.RubyReplaceOfJsonEscapeAll | apps/mailtools/src/lib/postal/validateSignature.ts:44-48 | replacing after `JSON.stringify` is escaping each character once |

## Behaviour of the code a caller might not expect

- When nothing is found, `foundSignaturePlainText` is "", not `null`. The code
  takes the text of the empty selection (`NotFoundIsEmpty`).
- The Outlook fallback always returns its new `div`, even when no element
  starts a run. A Microsoft document with no selector match is therefore always
  reported as having a signature (`DidFindSignatureExactly`).
- When no following sibling is a border-top `div`, `nextUntil` takes all
  following siblings, and they are moved out of the document (`UntilBorder`).
- Without `cleanedQuotations`, the search runs on a copy rooted at a new `html`
  element. That element carries none of the original's attributes, so the
  Outlook fallback never runs on the copy. The removal on the live document
  still takes the fallback and moves the run out. An Outlook-only signature is
  then removed but reported as not found (`UncleanedOutlookUnreported`).
- With `cleanedQuotations` on a Microsoft document, the removal searches again
  after the run was moved out. It therefore moves out a second run when one is
  left (`RemovalOutcome`).
- `#Signature` is the one selector the two generic substring rules do not
  cover, because the attribute test is case-sensitive (`SignatureRulesSimplified`).
- When matches are nested, `.text()` concatenates the text of each selected
  element, so nested text appears twice (`SelectionText`).
- An empty key gives the text "false" inside the PEM block (`PemShape`).
  Node's verifier throws on a block it cannot read, and a throw on any key
  before a verifying one rejects the whole check instead of trying the next
  key (`ValidatePostalWebhookSignature`).

## Left out

- HTML parsing and serialisation: the document is a parsed forest, and the
  signature HTML is the forest that `.html()` would serialise.
- The `html`/`head`/`body` normalisation of the parser: the copy of line 30 is
  the first element's content under a new `html` root.
- Comments and other non-element, non-text nodes: they are not part of the tree.
- `removeQuotations`: it is not part of this model. It is a caller-supplied test
  `isQuote`, and every node it selects is pruned from the copy.
- `crypto.createVerify('SHA1')`: a parameter `verify` that receives the PEM
  block, the re-encoded body and the signature, and either returns a boolean or
  throws. Which blocks make Node's verifier throw, base64 decoding and RSA are
  not modelled.
- `async`: the Postal check returns how its promise settles (resolved with a
  boolean, or rejected) instead of a promise.
- Strings are sequences of Unicode scalar values, not UTF-16 code units. Lone
  surrogates and the code-unit length of astral characters are not modelled.
- chunkSplit: the size is an integer. A fractional `chunkSize` would build a
  different regular expression.
- Tag and attribute names are compared as given. HTML's case folding of tag
  names is done by the parser.
- RemoveSignatures.FindAllSignatures: a selector list lists each element once,
  and the model assumes this of cheerio's union selection.
- PostalSignature.ChunkSplitOfPlainKey: the result of chunkSplit is stated in
  closed form only for keys without line terminators.
  GlobalMatchesDropLineTerminators covers keys with them.
