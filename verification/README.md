# HTTP message signatures: structured fields, signature base, sign and verify

A Dafny model of the Go library for RFC 9421 (HTTP Message Signatures), with proofs of
what its parts promise each other:

- **Structured fields** (RFC 8941): `SfvTypes`, `SfvGrammar` (what is accepted and what is
  printed, as functions), `SfvParser` (the cursor-based parser, a class), `SfvWriter` (the
  serializer, appending to a string builder), `Base64`. Around them `SfvPrimitives`,
  `SfvRoundTrip`, `SfvSpelling`, `SfvAccepted`, `SfvJoin`, `SfvLimits`, `SfvExactLimits`,
  `SfvDictionary` and `SfvPrintable` prove the laws: print then parse, which texts are
  accepted and what each means, stability, what joined header lines mean, limits reject
  exactly what does not fit, a dictionary is the fold of its members.
- **Signature metadata**: `SignatureTypes`, `SignatureParser`, `ParameterLaws`,
  `SignatureInput`, `SignatureText`. Two printers and one parser that have to agree.
- **Signature base**: `LineFolding`, `HttpMessage`, `HeaderLaws`, `FieldValues`,
  `FieldLaws`, `DerivedLaws`, `SfStability`, `SignatureBase`, `IdentifierQuotes`, `Identifiers`, `LineCuts`,
  `BaseInjectivity`, `BaseCollisions`, `ClearComponents`, `DeterminedLists`. Component
  values, the base built from them, what an equal base implies, and what it does not.
- **Sign and verify**: `HttpSig` (signer, message with headers set in place, verifier),
  `SignerLaws` (what the headers say of the options), `SignVerify` (sign then verify,
  verified means covered, verified means signed) and `ManySignatures`.
- **Content-Digest** (RFC 9530): `SortedStrings`, `ContentDigest`, `DigestVerify`.
- **ECDSA signatures of fixed width**: `Ecdsa`.

How it is built: a parser, writer or verifier that changes state step by step is a method
on the same state, proved against a function; the laws are lemmas about these functions. A
parse function takes the text that is left and returns a value and what remains, so it is
independent of the cursor; a method is proved to return that value and leave that text. A
`string` is a Go byte string, one char a byte. `None` and `Fail` are the error returns.

Where the code differs from the RFCs the model follows the code:

- A dictionary or list ends at the first thing behind a member that is no comma, and the
  rest of the input is ignored (pkg/sfv/dictionary.go:79-82, pkg/sfv/list.go:53-56). So a
  second header line is ignored too when the first ends like that
  (`SfvJoin.JoinedDictionaryLines`).
- A dictionary at its member limit refuses a further member even if it repeats a key
  (pkg/sfv/dictionary.go:51-54, `SfvExactLimits.FullDictionaryRefuses`).
- Keys follow the token grammar, a bare dictionary key takes no parameters, and repeated
  parameters are all kept (pkg/sfv/dictionary.go:103-106, pkg/sfv/parameters.go:45-48).
- Items of an inner list need no space between them where the first one ends by itself, as
  in `("a""b")` (pkg/sfv/innerlist.go:22-52, `SfvSpelling.SpacedAreRead`), and no space is
  skipped behind a ';'.
- The low bits of base64 that carry no byte are not looked at (`Base64.DecodesExactly`).
- The `bs` form encodes the joined lines as one byte sequence, where section 2.1.3 of
  RFC 9421 encodes each line (pkg/base/extract.go:200-205). The two are the same exactly for
  one line (`FieldLaws.BytesFormIsOneSequence`).
- The base prints component names without escaping them, Signature-Input escapes them
  (pkg/base/signature_params.go:91-93): `SignatureText.PrintersAgree` says exactly when the
  two are the same text.
- `sf` reads a value as a dictionary, else a list, else an item, and is not idempotent:
  `SfStability.SfFormUnstable` and `SfStability.SfFormOutgrowsLimit` are families of values
  that show it, `SfStability.SfFormStable` is the exact condition. Printing adds a space
  behind every comma, so a text can outgrow the input limit, and items are read without a
  length check. Without that limit dictionaries and lists on their own are stable
  (`SfvLimits.DictionaryIsStable`, `SfvLimits.ListIsStable`).
- A canonical field value is canonical again exactly when it is one line or its last line
  is not blank (`FieldLaws.CanonicalIsStable`).
- A covered value with an LF can imitate a line next to it. Field values have none
  (`FieldValues.FieldValueHasNoNewline`); `@query-param` values may. Then two requests can
  have one base (`BaseCollisions.QueriesCollide`) and one signature
  (`SignVerify.OneSignatureTwoQueries`). Exactly when the base determines the values is
  `BaseInjectivity.BaseDetermines`.
- Names with quotes print like other components. Which components their identifier
  determines is `Identifiers.IdentifierDeterminesComponent`, among all components a signer
  can be given, or among those that pass the parser's validation (pkg/parser/validator.go:27-51).
  Among the latter derived components always are, whatever their parameters; a field with a
  plain name exactly if behind none of its string parameters a valid combination is left.
- If no value has an LF, the base still determines the printed identifiers, one by one
  (`BaseInjectivity.BaseInjectiveAnyNames`); with an LF and a quote it does not
  (`BaseCollisions.HeadersCollide` has two requests; the header map is given there: a field
  name with quotes, a colon and a space does not arrive over HTTP/1).
- Derived components and fields without strings, under plain names and signed with values
  without LF, are told from every other list that a parser can return, exactly if no field
  but the first component prints like a later component and a colon
  (`DeterminedLists.ListDeterminedExactly`). What is signed like that is safe against every
  other message (`SignVerify.VerifiedClearWasSigned`).
- An `alg` parameter that is present and empty counts as absent, unless the verifier is
  configured with an algorithm (`SignVerify.Agreed`).
- The ECDSA codec forgets the sign of a negative number (`Ecdsa.DecodeEncoded`).

## Model

| member | source | states |
|---|---|---|
| SfvParser.Parser.constructor | pkg/sfv/lexer.go:23-29 | a new parser stands at offset 0 of its text |
| SfvParser.Parser.Peek | pkg/sfv/lexer.go:33-38 | the first byte left, NUL at the end |
| SfvParser.Parser.Consume | pkg/sfv/lexer.go:43-49 | moves one byte exactly when it is the expected one; the only way past the end is to ask for NUL at the end |
| SfvParser.Parser.SkipOws | pkg/sfv/lexer.go:53-62 | leaves the text behind the longest run of spaces and tabs |
| SfvParser.Parser.SkipSpaces | pkg/sfv/lexer.go:66-70 | leaves the text behind the longest run of spaces |
| SfvParser.Parser.GetContext | pkg/sfv/lexer.go:79-92 | in range at every offset: twenty bytes on either side of the cursor as far as there are, marked where text is cut off |
| SfvParser.Parser.ParseBoolean | pkg/sfv/primitives.go:16-31 | never leaves the text; result and text left are the grammar's |
| SfvParser.Parser.ParseInteger | pkg/sfv/primitives.go:34-70 | never leaves the text; result and text left are the grammar's |
| SfvPrimitives.IntegerExactly | pkg/sfv/primitives.go:34-70 | an integer is read exactly from an optional minus and the longest run of one to fifteen digits, with their decimal value |
| SfvPrimitives.ParseInt64NeverFails | pkg/sfv/primitives.go:58-69 | the 64-bit conversion error is not reachable behind the fifteen-digit check |
| SfvPrimitives.DecimalPlaces | pkg/sfv/primitives.go:34-70 | digits count by their place: the value of two digit strings one behind the other |
| SfvParser.Parser.ParseString | pkg/sfv/primitives.go:74-111 | the scanning pass and the decoding pass together read what the one-pass grammar reads |
| SfvParser.Parser.FinishString | pkg/sfv/primitives.go:115-126 | the shortcut without escapes gives what decoding would give |
| SfvParser.Parser.ConsumeEscapeMarker | pkg/sfv/primitives.go:130-136 | one byte further, failing exactly at the end of the text |
| SfvParser.Parser.DecodeString | pkg/sfv/primitives.go:139-163 | the index loop computes the recursive decoding |
| SfvParser.TwoPasses | pkg/sfv/primitives.go:74-163 | decoding a scanned string can only fail for an invalid escape: its end-of-string and length errors are not reachable |
| SfvPrimitives.StringExactly | pkg/sfv/primitives.go:74-163 | a string is read exactly from its own printed form: the span consumed is the serialization of the result, and conversely |
| SfvPrimitives.StringBytes | pkg/sfv/primitives.go:139-163 | inside a string bytes 32 to 126 stand for themselves, but quote and backslash, which are the only ones that follow a backslash |
| SfvParser.Parser.ParseToken | pkg/sfv/primitives.go:168-204 | never leaves the text; result and text left are the grammar's |
| SfvPrimitives.TokenExactly | pkg/sfv/primitives.go:168-204 | a token is read exactly from itself, within the limit, where the text behind does not continue it |
| HeaderLaws.TokenCharacters | pkg/sfv/primitives.go:168-204 | token characters are those of field names but ten of them, and ':' and '/', which no field name has |
| SfvParser.Parser.DecodeBase64 | pkg/sfv/primitives.go:234-242 | padded first, then unpadded |
| SfvParser.Parser.ParseByteSequence | pkg/sfv/primitives.go:207-251 | never leaves the text; result and text left are the grammar's |
| SfvPrimitives.ByteSequenceExactly | pkg/sfv/primitives.go:207-251 | bytes are read exactly from a base64 text between colons, padded or unpadded, within the limit |
| SfvPrimitives.ByteSequenceRoundTrip | pkg/sfv/primitives.go:207-251 | the padded and the unpadded form of any bytes both parse back to them |
| Base64.DecodeEitherEncode | pkg/sfv/primitives.go:231-242 | trying padded and then unpadded base64 decodes both encodings of any bytes |
| Base64.DecodesExactly | pkg/sfv/primitives.go:231-242 | a text decodes to bytes exactly when it is their encoding, but for bits of the last digit that carry no byte |
| Base64.AlphabetIsInOrder | pkg/sfv/primitives.go:231-242 | the digits are those of RFC 4648 in their order |
| Base64.ManIsEncoded | pkg/sfv/primitives.go:231-242 | an example of each length, padded and not |
| SfvPrimitives.Base64CharsHaveValues | pkg/sfv/primitives.go:207-230 | the scan between the colons takes exactly the characters that the decoders have a value for |
| SfvPrimitives.BareItemRoundTrip | pkg/sfv/item.go:5-37 | one byte of lookahead finds the right parser for every printed bare item |
| SfvParser.Parser.ParseBareItem | pkg/sfv/item.go:5-37 | the dispatch and the cursor agree with the grammar |
| SfvParser.Parser.ParseParameters | pkg/sfv/parameters.go:13-52 | the loop reads the parameters of the grammar, duplicates included, under the limit |
| SfvRoundTrip.ParametersRoundTrip | pkg/sfv/parameters.go:13-52 | printed parameters are read back and reading stops behind the last one |
| SfvParser.Parser.ParseItem | pkg/sfv/innerlist.go:69-86 | an item and its parameters, the rest left unread |
| SfvRoundTrip.ItemRoundTrip | pkg/sfv/innerlist.go:69-86 | a printed item is read back in front of a space, a parenthesis, a comma or the end |
| SfvParser.Parser.ParseItems | pkg/sfv/innerlist.go:22-52 | the loop reads the items of the grammar, up to the parenthesis |
| SfvParser.Parser.ParseInnerList | pkg/sfv/innerlist.go:14-65 | the items and the parameters of the list |
| SfvRoundTrip.InnerListRoundTrip | pkg/sfv/innerlist.go:14-65 | a printed inner list of any length is read back, items and parameters |
| SfvSpelling.SpacesDoNotMatter | pkg/sfv/innerlist.go:22-52 | any number of spaces in front of an item or of the parenthesis is skipped |
| SfvSpelling.TabFails | pkg/sfv/innerlist.go:22-52 | a tab there is an error |
| SfvSpelling.InnerListAnySpaces | pkg/sfv/innerlist.go:14-65 | a printed inner list with any spaces behind '(' and in front of ')', and at least one between items, is read back |
| SfvSpelling.SpacedAreRead | pkg/sfv/innerlist.go:22-52 | so are items in any spelling with any number of spaces, also none where an item ends by itself |
| SfvAccepted.ItemExactly | pkg/sfv/innerlist.go:69-86 | an item is read exactly from a spelling of it: bare item, then parameters with nothing around ';' and '=', with the rest not continuing it |
| SfvParser.Parser.ParseValue | pkg/sfv/list.go:64-90 | item or inner list, by the first byte |
| SfvParser.Parser.ParseDictionaryMember | pkg/sfv/dictionary.go:90-114 | a key alone is true; white space behind a key is an error |
| SfvParser.Parser.ParseDictionary | pkg/sfv/dictionary.go:29-86 | for any text: terminates, stays in range and updates keys and values to the grammar's dictionary |
| SfvParser.Parser.ParseList | pkg/sfv/list.go:8-60 | for any text: terminates, stays in range and collects the grammar's members |
| SfvDictionary.DictionaryIsFold | pkg/sfv/dictionary.go:45-83 | the dictionary is the fold of the members read, whatever was stored before |
| SfvDictionary.DictionaryMeaning | pkg/sfv/dictionary.go:29-86 | keys are distinct, exactly the map's domain, in order of first occurrence, each with its last value |
| SfvAccepted.DictionaryExactly | pkg/sfv/dictionary.go:29-114 | the texts accepted without limits are exactly those made of entries with commas and white space between them and an ignored tail, and mean those entries stored in order |
| SfvAccepted.ListExactly | pkg/sfv/list.go:8-90 | as lists |
| SfvRoundTrip.DictionaryRoundTrip | pkg/sfv/dictionary.go:29-114 | parsing the printed text of any well-formed dictionary gives it back, key order included |
| SfvRoundTrip.ListRoundTrip | pkg/sfv/list.go:8-90 | parsing the printed text of any well-formed list gives it back |
| SfvRoundTrip.TrailingCommaFails | pkg/sfv/dictionary.go:74-86 | a comma behind the last member of any dictionary is an error |
| SfvJoin.JoinedDictionaryLines | pkg/sfv/dictionary.go:45-83 | two header lines joined by a comma, the first of which parses by itself: the second is stored over the first if the first is read to its end, an error if it is blank, and ignored if the first is not read to its end |
| SfvJoin.JoinedListLines | pkg/sfv/list.go:26-57 | as lists, the members of both in order, an error, or the first alone |
| SfvJoin.JoinedInsideString | pkg/sfv/dictionary.go:45-83 | a first line that does not parse by itself can still begin a dictionary: a string cut in two by the join |
| SfvLimits.DictionaryLimits | pkg/sfv/dictionary.go:51-54 | looser limits give the same dictionary; and everything in it is within the limits that accepted it |
| SfvLimits.ListLimits | pkg/sfv/list.go:8-60 | the same for lists |
| SfvLimits.ItemLimits | pkg/sfv/innerlist.go:69-86 | the same for items |
| SfvExactLimits.ItemLimitsExactly | pkg/sfv/innerlist.go:69-86 | an item is parsed under tighter limits exactly when it fits them |
| SfvExactLimits.ListLimitsExactly | pkg/sfv/list.go:8-60 | a list is parsed under tighter limits exactly when it fits them and the input is within the length limit |
| SfvExactLimits.DictionaryLimitsExactly | pkg/sfv/dictionary.go:29-86 | a dictionary is, exactly when every member read fits, also one that is replaced later, there is room for one more key at every member, and the input is within the length limit |
| SfvExactLimits.FullDictionaryRefuses | pkg/sfv/dictionary.go:51-54 | at its member limit a dictionary refuses a repeated key, though the result would fit |
| SfvExactLimits.DefaultLimitsExactly | pkg/sfv/limits.go:38-48 | the default limits refuse exactly what exceeds 65536 bytes, 128 members or items, 64 parameters, strings of 8192, tokens of 256 and byte sequences of 16384 bytes |
| SfvLimits.ByteSequenceLimits | pkg/sfv/primitives.go:244-248 | the same for byte sequences |
| SfvLimits.DictionaryIsStable | pkg/sfv/serialize.go:75-126 | whatever was accepted can be serialized, and the text parses to the same dictionary under the same limits, input length aside |
| SfvLimits.ListIsStable | pkg/sfv/serialize.go:130-165 | the same for lists |
| SfvWriter.WriteQuoted | pkg/sfv/serialize.go:224-235 | appends the quoted form, a backslash before quotes and backslashes |
| SfvWriter.WriteBareItem | pkg/sfv/serialize.go:167-214 | appends the printed form; fails exactly for a value of another type |
| SfvWriter.WriteParameters | pkg/sfv/serialize.go:237-257 | appends every parameter in order, true as the key alone |
| SfvWriter.WriteItem | pkg/sfv/serialize.go:21-35 | appends value and parameters |
| SfvWriter.WriteInnerList | pkg/sfv/serialize.go:47-71 | appends the items with single spaces between them, then the parameters |
| SfvWriter.WriteDictionary | pkg/sfv/serialize.go:87-126 | appends the members in key order; fails exactly for a key without a value or a value of another type |
| SfvWriter.WriteList | pkg/sfv/serialize.go:142-165 | appends the members with ", " between them |
| SfvWriter.SerializeItem | pkg/sfv/serialize.go:13-19 | the text that the item round trip reads back |
| SfvWriter.SerializeInnerList | pkg/sfv/serialize.go:39-45 | the text that the inner list round trip reads back |
| SfvWriter.SerializeDictionary | pkg/sfv/serialize.go:75-85 | the text that the dictionary round trip reads back |
| SfvWriter.SerializeList | pkg/sfv/serialize.go:130-140 | the text that the list round trip reads back |
| SfvWriter.SerializeString | pkg/sfv/serialize.go:218-222 | the quoted form |
| SfvLimits.SoundMember | pkg/sfv/serialize.go:75-257 | a member has a text that reads back, limits aside, exactly when the serializer accepts it and its strings, tokens, keys and integers are sound; the serializer looks for unsupported types only |
| SfvLimits.SoundDictionary | pkg/sfv/serialize.go:87-126 | so does a dictionary, with distinct keys that are tokens; a key without a value is refused |
| SfvPrintable.EntriesPrintable | pkg/sfv/serialize.go:87-126 | the text of a well-formed dictionary is printable ASCII |
| SfvPrintable.MembersPrintable | pkg/sfv/serialize.go:142-165 | so is the text of a list |
| SignatureTypes.ValidateParameterCombinations | pkg/parser/validator.go:73-105 | the flags set in the loop decide that bs excludes sf and key, and key needs sf |
| SignatureTypes.ValidateDerivedComponentParameters | pkg/parser/validator.go:54-70 | @query-param has a name parameter |
| SignatureTypes.ValidateComponentIdentifier | pkg/parser/validator.go:27-51 | accepts exactly the valid identifiers; the check for the reserved name changes nothing |
| ParameterLaws.ValidCombinations | pkg/parser/validator.go:73-105 | of bs, sf and key exactly none, bs, sf, and sf with key are valid together |
| DerivedLaws.ValidNamesExactly | pkg/parser/validator.go:9-19 | the valid derived names are exactly those that some message has a value for |
| DerivedLaws.ValueIsAccepted | pkg/parser/validator.go:27-105 | a derived component with a value in some message is accepted, unless its flags exclude each other |
| SignatureParser.ExtractSignatureParams | pkg/parser/parser.go:187-217 | the loop folds the known parameters, last one wins, unknown ones ignored |
| ParameterLaws.ExtractsExactly | pkg/parser/parser.go:187-236 | parameters are accepted exactly when every known one has its type; unknown ones may be anything |
| ParameterLaws.LastParameterCounts | pkg/parser/parser.go:187-217 | of several under one known key the last one counts, and no other key changes it |
| SignatureParser.ParseSignatureEntryFromInput | pkg/parser/parser.go:109-158 | an entry exactly for an inner list of strings that are valid identifiers with well-typed parameters |
| SignatureParser.ParseSignatureEntry | pkg/parser/parser.go:161-182 | that entry with the bytes of its signature |
| SignatureParser.ParseSignatureInput | pkg/parser/parser.go:81-106 | one entry a label, and failure if any label has none |
| ParameterLaws.HeaderExactly | pkg/parser/parser.go:81-158 | a header is accepted as a whole or not at all: exactly when it is a dictionary of inner lists of strings that are valid names, with well typed parameters; every label has its entry |
| SignatureParser.ParseSignatures | pkg/parser/parser.go:22-77 | both headers, with exactly the same labels |
| SignatureParser.SignaturesExtendInput | pkg/parser/parser.go:22-182 | succeeds exactly when ParseSignatureInput does, the labels are the same and every signature is bytes; then entry by entry it is that result with the bytes filled in |
| SignatureInput.ComponentParamsToSfv | pkg/httpsig/serialize.go:63-74 | the loop maps every parameter in order |
| SignatureInput.SignatureParamsToSfv | pkg/httpsig/serialize.go:76-99 | the set parameters, in the order of section 2.3 of RFC 9421 |
| SignatureInput.SerializeSignatureInput | pkg/httpsig/serialize.go:12-41 | label, '=' and the inner list; fails exactly for an empty label or a parameter without a value |
| SignatureInput.SerializeSignature | pkg/httpsig/serialize.go:43-61 | the direct form of the Signature header |
| SignatureInput.SignatureTextIsDictionary | pkg/httpsig/serialize.go:43-61 | the direct form is the serialized one-entry dictionary |
| SignatureInput.ExtractSignatureParams | pkg/httpsig/serialize.go:76-99 | extracting printed signature parameters gives them back, absent ones included |
| SignatureInput.MetadataRoundTrip | pkg/httpsig/serialize.go:12-41 | parsing a printed Signature-Input gives exactly one entry, the label, the components with their type recovered, the parameters, if and only if all of it is valid and fits the limits |
| SignatureInput.ParsedFits | pkg/parser/parser.go:81-158 | whatever metadata is parsed can be printed within the same limits, with valid components |
| SignatureInput.SignatureRoundTrip | pkg/httpsig/serialize.go:43-61 | parsing a printed Signature header gives exactly the label and the bytes |
| SignatureText.WriteSignatureParamsLine | pkg/base/signature_params.go:28-68 | appends the @signature-params line |
| SignatureText.WriteComponentIdentifier | pkg/base/signature_params.go:89-132 | appends name and parameters of an identifier |
| SignatureText.WriteComponentLine | pkg/base/component_line.go:33-43 | appends identifier, colon, space and value |
| SignatureText.AssembleSignatureBase | pkg/base/signature_base.go:25-50 | the lines joined by LF, the parameters line last, no LF at the end |
| SignatureText.ParamsLineIsComponentLine | pkg/base/signature_params.go:28-40 | the last line is that of a component named @signature-params |
| SignatureText.IdentifierTexts | pkg/base/signature_params.go:89-132 | an identifier in the base is the item in Signature-Input exactly when its name needs no escape; else it is shorter |
| SignatureText.PrintersAgree | pkg/base/signature_params.go:28-132 | Signature-Input is label, '=' and the value on the @signature-params line exactly when no component name needs an escape |
| LineFolding.SkipObsFold | pkg/base/extract.go:55-75 | the end of the fold at a newline, or failure |
| LineFolding.NormalizeLineFolding | pkg/base/extract.go:21-48 | the shortcut for text without newlines and the loop compute the same function |
| LineFolding.NormalizeAccepts | pkg/base/extract.go:21-75 | succeeds exactly when every LF has a space or tab behind it and every CR an LF |
| LineFolding.NormalizeExactly | pkg/base/extract.go:21-75 | the result is the input with each fold, taken as long as it goes, replaced by one space, and nothing else |
| LineFolding.NormalizeIdempotent | pkg/base/extract.go:21-75 | normalizing again changes nothing |
| HeaderLaws.SameFieldExactly | pkg/base/adapter.go:93-101 | two names name one field exactly when they are the same, or both field names that differ in case only |
| HeaderLaws.SetChangesOneField | pkg/httpsig/signer.go:125-155 | setting a field gives it one line and changes no other field |
| HeaderLaws.GetIsFirstLine | pkg/httpsig/verifier.go:112-113 | a field is read by its first line |
| FieldValues.CanonicalizeFieldValues | pkg/base/extract.go:243-253 | unfolds, trims and joins all lines, failing if any cannot be unfolded |
| FieldLaws.CanonicalLines | pkg/base/extract.go:243-253 | every line unfolded and trimmed, in order, joined by comma and space; none exactly when a line is not well folded |
| FieldLaws.TrimExactly | pkg/base/extract.go:243-253 | trimming takes ASCII white space off both ends and nothing else |
| FieldLaws.CanonicalIsStable | pkg/base/extract.go:243-253 | a canonical value is canonical again exactly when it comes from one line or its last line is not blank |
| FieldValues.ParseHttpFieldParams | pkg/base/extract.go:218-241 | the loop is the fold of the parameters |
| FieldLaws.LastFlagDecides | pkg/base/extract.go:218-241 | tr, sf and bs have the value of the last boolean under the key |
| FieldLaws.FlagStays | pkg/base/extract.go:218-241 | without a boolean under the key the flag stays as it was |
| FieldLaws.LastKeyDecides | pkg/base/extract.go:218-241 | the dictionary member is named by the last string under key, and by nothing else |
| FieldValues.SerializeStructuredFieldValue | pkg/base/extract.go:255-302 | one member, or the value as a dictionary, else as a list, else as an item |
| FieldValues.SerializeStructuredFieldMember | pkg/base/extract.go:304-321 | the text of the member that was found |
| FieldLaws.MemberFormReadsBack | pkg/base/extract.go:255-320 | with a key the sf form is that member's text and reads back as it; there is one exactly for a dictionary that has the key |
| FieldLaws.FormReadsBack | pkg/base/extract.go:271-298 | without one the form is that of a dictionary, else of a list, else of an item, and reads back as the same |
| SfStability.ListReadAsDictionary | pkg/base/extract.go:271-298 | how a dictionary parser reads the text of any list: bare tokens are keys, a token with parameters ends it, anything else fails |
| SfStability.SfFormStable | pkg/base/extract.go:271-298 | for every value: the sf form taken twice is the sf form taken once exactly when, within the input limit, the value is a dictionary, or its leading bare tokens are followed by something else than a token, or are all there is and do not repeat; and over the limit, when it is a single item and no dictionary |
| SfStability.SfFormUnstable | pkg/base/extract.go:271-298 | a family of values that loses a member the second time |
| SfStability.SfFormOutgrowsLimit | pkg/base/extract.go:271-298 | dictionaries as long as an input can be, of which the second time leaves the first key |
| SfStability.LongItemExists | pkg/sfv/limits.go:38-48 | there are such dictionaries, with every part within its limit |
| FieldLaws.BytesFormExact | pkg/base/extract.go:200-205 | the bs form parses back to the bytes of the canonical value, and differs for different values |
| FieldLaws.BytesFormIsPrinted | pkg/base/extract.go:200-205 | the bs form is what the serializer prints for the bytes of the value |
| FieldLaws.BytesFormIsOneSequence | pkg/base/extract.go:200-205 | the bs form is the joined byte sequences of the lines exactly when there is one line |
| FieldLaws.BytesFormMergesLines | pkg/base/extract.go:200-205 | it has one value for one line with a comma and for two lines, whose joined byte sequences differ |
| FieldValues.ExtractHttpFieldValue | pkg/base/extract.go:159-209 | headers or trailers, raw, sf or bs; fails for a missing field or a forbidden combination |
| FieldLaws.FieldHasValueExactly | pkg/base/extract.go:159-213 | there is a value exactly when sf and bs do not meet, key comes with sf, there is a line, of the trailers with tr, every line is well folded, and the sf form exists |
| FieldValues.FieldValueHasNoNewline | pkg/base/extract.go:159-253 | no field value, plain, sf, bs or key, contains CR or LF |
| FieldValues.FindQueryParamName | pkg/base/extract.go:476-486 | the first name parameter that is a string |
| FieldLaws.FirstNameDecides | pkg/base/extract.go:476-486 | whatever follows: the first string under name |
| DerivedLaws.RequestTargetIsPathAndQuery | pkg/base/extract.go:416-453 | @request-target is @path followed by @query, except that an empty query leaves no '?' |
| DerivedLaws.TargetUriIsItsParts | pkg/base/extract.go:392-430 | @target-uri is @scheme, "://", @authority and @request-target, without the slash that stands for an empty path |
| DerivedLaws.HasValueExactly | pkg/base/extract.go:356-497 | a derived component has a value in some message exactly when its name is known, @query-param has a name and @status asks for no related request |
| DerivedLaws.AcceptedWithoutValue | pkg/parser/validator.go:27-70 | the only derived components the parser accepts and no message has a value for: a query parameter whose name is no string or empty, and the status of a related request |
| DerivedLaws.OfOneKindOfMessage | pkg/base/extract.go:323-345 | @status has a value on responses only, all others on requests only |
| DerivedLaws.MethodIsVerb | pkg/base/extract.go:381-390 | @method tells requests apart exactly as their methods do |
| DerivedLaws.StatusReadsBack | pkg/base/extract.go:488-497 | @status reads back as the integer it is |
| DerivedLaws.FurtherValuesIgnored | pkg/base/extract.go:455-472 | a query parameter has its first value, however many follow |
| FieldValues.HasReqParameter | pkg/base/extract.go:108-117 | the first req parameter decides |
| FieldLaws.FirstReqDecides | pkg/base/extract.go:108-117 | whatever follows |
| FieldValues.RemoveReq | pkg/base/extract.go:121-144 | the loop removes every req parameter |
| FieldValues.WithoutReqHasNone | pkg/base/extract.go:121-144 | nothing is left that would send the extraction to the related request again |
| FieldLaws.WithoutReqKeepsOthers | pkg/base/extract.go:121-144 | every other parameter is kept, in order |
| FieldValues.ExtractFromRelatedRequest | pkg/base/extract.go:121-144 | the value the request has for the component, for a response that knows its request |
| FieldLaws.ReqReadsRequest | pkg/base/extract.go:121-144 | a component with req has the value that the request of a response has for the rest of it, and none on requests and on responses without one |
| FieldValues.ExtractComponentValue | pkg/base/extract.go:90-104 | terminates, and gives the component's value |
| SignatureBase.Build | pkg/base/build.go:50-74 | the streamed form writes the joined lines, and fails exactly when a component has no value |
| SignatureBase.BuildFromLines | pkg/base/signature_base.go:25-50 | assembling formatted lines gives the same base as Build |
| BaseInjectivity.ParamsValueDetermines | pkg/base/signature_params.go:28-132 | the @signature-params value determines every component and every parameter |
| LineCuts.CutsDetermined | pkg/base/signature_base.go:25-50 | values between line beginnings are determined by the joined text exactly when none contains the beginning before or behind it |
| LineCuts.MoveCut | pkg/base/signature_base.go:25-50 | otherwise moving one cut gives other values with the same text |
| BaseInjectivity.BaseDetermines | pkg/base/build.go:50-74 | over given components the base determines the values exactly when no value imitates the beginning of its own line or the next |
| BaseInjectivity.NoLfDetermined | pkg/base/build.go:50-74 | values without LF are determined |
| BaseInjectivity.BaseInjective | pkg/base/build.go:50-74 | where names need no escape, equal bases have equal components and parameters whatever the values, and equal values if those of one side are determined |
| IdentifierQuotes.QuoteEndsString | pkg/base/signature_params.go:89-132 | parameters can be read behind a quote among printed parameters only if it ends a string, and then they are the parameters behind that string |
| Identifiers.IdentifierDeterminesComponent | pkg/base/signature_params.go:89-132 | a printed identifier is no other component's exactly when behind no string parameter and behind no quote in the name the rest can be read as parameters; among components that pass validation the rest has to pass it too, which it never does for derived ones with a string |
| Identifiers.PlainIdentifierDetermines | pkg/base/signature_params.go:89-132 | for a name that needs no escape: among all components exactly when no parameter is a string; among those that pass validation exactly for derived components, and for fields with no string behind which a valid combination is left |
| Identifiers.StringTwin | pkg/base/signature_params.go:89-132 | everything up to the closing quote of a string parameter can be the name of another component that prints alike, which for a field is valid if what is left of the parameters is |
| Identifiers.QuoteTwin | pkg/base/signature_params.go:89-132 | so can everything up to a quote in the name, if the rest can be read as parameters, valid ones if validation is asked |
| Identifiers.LeftOverCombination | pkg/parser/validator.go:73-105 | what is left of a valid combination of parameters is valid unless key is left and sf is not |
| Identifiers.DerivedDetermined | pkg/parser/validator.go:27-70 | a derived component is determined by any text that begins with its identifier, against every component that passes validation, whatever its parameters |
| BaseInjectivity.BaseInjectiveAnyNames | pkg/base/build.go:50-74 | whatever the names, where no value has an LF, equal bases have identifiers that print alike one by one, equal values, equal parameters, and the same component wherever one of the two is determined by its identifier |
| ClearComponents.ClearBaseDetermines | pkg/base/build.go:50-74 | clear components, with plain names and without strings in the parameters of fields, signed with values without LF: no other list that a parser can return has their base, whatever its names and values, unless a field behind the first component prints like a later component and a colon |
| BaseCollisions.SpanCollides | pkg/base/build.go:50-74 | if one does, there is another list with the same base, one component of which has the others in its name, for all values but that of the later component |
| DeterminedLists.DeterminedNeeds | pkg/base/build.go:50-74 | whatever the names: a list that no other list a parser can return shares a base with, for all values without LF, has components that are determined by their identifiers and no field behind the first that prints like a later component and a colon |
| DeterminedLists.ListDeterminedExactly | pkg/base/build.go:50-74 | for plain names, and fields whose strings each have a valid rest or none: exactly the clear lists with no such field are determined |
| BaseCollisions.QuotedNamePrintsAlike | pkg/base/signature_params.go:89-132 | two components that print alike: one with a string parameter, and one with that parameter inside its name |
| BaseCollisions.QuotedNameAndLfCollide | pkg/base/build.go:50-74 | the smallest case, a quote in a name and an LF in a value: one base for different lists of components |
| BaseCollisions.HeadersCollide | pkg/base/build.go:50-74 | two requests that have such lists: one base, different covered components |
| BaseCollisions.ValuesWithLfCollide | pkg/base/build.go:50-74 | with an LF in a value, different values give one base |
| BaseCollisions.QueriesCollide | pkg/base/extract.go:455-472 | two requests that differ in two covered query parameters have one base |
| BaseInjectivity.SameBaseSameValues | pkg/base/build.go:50-74 | two messages with one base agree on every covered component if the values of one are determined |
| BaseInjectivity.SameBaseAnyNames | pkg/base/build.go:50-74 | and, whatever the names, if the values of both keep to one line |
| HttpSig.AssembleParams | pkg/httpsig/signer.go:74-104 | the signature parameters of the options, field by field |
| HttpSig.NewSigner | pkg/httpsig/signer.go:53-122 | the parameters assembled field by field, and their printed form; fails without key, algorithm or a value for a component parameter |
| SignerLaws.SignerExactly | pkg/httpsig/signer.go:53-122 | there is a signer exactly for a key, a registered algorithm and values for all component parameters; it has them, and the label sig1 where none is given |
| SignerLaws.HeaderSaysOptions | pkg/httpsig/signer.go:70-122 | read back, the header has one entry, with label, components, created, expires, nonce, alg, keyid and tag as the options say, absent ones absent |
| HttpSig.SignMessage | pkg/httpsig/signer.go:157-177 | a signature over the base, and both header values |
| SignerLaws.SignsExactly | pkg/httpsig/signer.go:157-177 | a message is signed exactly when it has a base that the algorithm signs; the headers are the signer's own input and a dictionary with the signature's bytes under the label |
| HttpSig.SignLive | pkg/httpsig/signer.go:125-155 | both headers are set, replacing older ones, when signing succeeds; the message is untouched when it fails |
| HttpSig.NewVerifier | pkg/httpsig/verifier.go:61-91 | exactly one of key and resolver; the allow list as a set; default limits |
| HttpSig.ComponentEqual | pkg/httpsig/verifier.go:287-331 | the element-wise comparison is equality, parameter order and types included |
| HttpSig.ComponentInList | pkg/httpsig/verifier.go:278-285 | membership |
| HttpSig.ValidateRequiredComponents | pkg/httpsig/verifier.go:269-276 | every required component is covered |
| HttpSig.VerifyEntry | pkg/httpsig/verifier.go:168-199 | behind the entry: coverage, parameters, algorithm, base and signature, or no result |
| HttpSig.VerifyMessage | pkg/httpsig/verifier.go:111-200 | a result exactly when one can be established: label, entry, signature bytes, coverage, parameters, base and an accepting algorithm |
| HttpSig.VerifiedResultIsUnique | pkg/httpsig/verifier.go:137-153 | a message has at most one result, though the label may be picked from a map |
| SignVerify.AlgorithmIsAgreed | pkg/httpsig/verifier.go:202-267 | a key and an algorithm are settled on exactly when the resolver, shown the label and the parameters, or without one the options give the key, and options, alg parameter, resolver and allow list agree on the algorithm wherever each is set, and one of them names it |
| SignVerify.AcceptedExactly | pkg/httpsig/verifier.go:176-193 | a base is accepted exactly when the registered algorithm of that name accepts the signature over it with that key |
| SignVerify.VerifiedMeansCovered | pkg/httpsig/verifier.go:168-200 | each required component is covered, has a value in the message, and its line is a line of the base that an algorithm and a key accepted which all sources agree on |
| SignVerify.AttachedVerifies | pkg/httpsig/verifier.go:111-200 | a message with a signer's headers verifies exactly when the policy permits the signer's metadata and the algorithm accepts the signature over the base the message has now; and then to the signer's label, components, parameters and signature |
| ManySignatures.EachVerifiesAlone | pkg/httpsig/verifier.go:111-166 | of two signatures under different labels in one message a verifier verifies the one whose label it is given, as if the other were not there, and neither without a label |
| SignVerify.SignThenVerify | pkg/httpsig/signer.go:125-177 | with an algorithm that accepts what it signs, the message with the signer's headers verifies over the very base that was signed, and to no other result |
| SignVerify.SignThenVerifyApplies | pkg/httpsig/signer.go:53-122 | there are a signer, a message, a verifier and an algorithm that meet all conditions of SignThenVerify |
| SignVerify.VerifiesWhileBaseIsSame | pkg/httpsig/verifier.go:186-199 | with a signature accepted over one text only, a message whose first lines still are these headers verifies exactly when its base is the one that was signed, whatever is covered |
| SignVerify.VerifiesWhileValuesAreSame | pkg/httpsig/verifier.go:186-199 | and so, whatever the names, exactly when every covered component has the value it had when it was signed, if those values are determined |
| SignVerify.OneSignatureTwoQueries | pkg/httpsig/verifier.go:186-199 | if they are not: a request and another one with other values of both covered query parameters, both verified by one signature |
| SignVerify.ParsedIsWellFormed | pkg/parser/parser.go:81-158 | whatever metadata is parsed is valid and has a base text; one that determines it, if its names need no escape |
| SignVerify.VerifiedWasSigned | pkg/httpsig/verifier.go:111-200 | if a key accepts only bases that were signed, a verified message has, whatever names it covers, the printed identifiers, the values and the parameters of a signed one, and the same component wherever the signed one is determined by its identifier, if values keep to one line |
| SignVerify.VerifiedPlainWasSigned | pkg/httpsig/verifier.go:111-200 | and the very components, with nothing asked of its values, if its names need no escape and the signed values are determined |
| SignVerify.VerifiedClearWasSigned | pkg/httpsig/verifier.go:111-200 | and the very components and values, with nothing asked of its names or values, if the signed components are clear and none prints like a later one and a colon, and the signed values keep to one line |
| SortedStrings.SortLists | pkg/digest/format.go:41 | sorting lists each string once, in order |
| SortedStrings.LessExactly | pkg/digest/format.go:41 | one string goes before another if it is its beginning, or has the smaller byte where they first differ |
| SortedStrings.ListingIsUnique | pkg/digest/format.go:35-41 | a set has one sorted listing, so map order does not matter |
| ContentDigest.CollectAlgorithms | pkg/digest/format.go:34-40 | every key once, in any order; fails exactly for an empty name |
| ContentDigest.FormatContentDigest | pkg/digest/format.go:29-59 | one text for a map, whatever order it is iterated in; fails exactly for an empty map, name or digest |
| ContentDigest.HeaderTextIsDictionary | pkg/digest/format.go:43-58 | the text is that of a dictionary of byte sequences |
| ContentDigest.ParseContentDigest | pkg/digest/parse.go:21-70 | a map exactly when every member is a supported algorithm with bytes of its length |
| ContentDigest.HeaderDigestsExactly | pkg/digest/parse.go:21-70 | a header is accepted as a whole or not at all, exactly for a dictionary within the default limits, not empty, of byte sequences as long as their algorithm's digests |
| ContentDigest.LengthIsInName | pkg/digest/parse.go:73-88 | a digest has as many bits as its algorithm's name says; exactly the supported ones have a length |
| ContentDigest.HeaderFits | pkg/digest/parse.go:27 | a printed map of supported digests is within the default limits |
| ContentDigest.DigestsRoundTrip | pkg/digest/parse.go:21-88 | a printed map parses back to itself exactly when all of it is supported digests of the right length |
| DigestVerify.VerifyContentDigestBytes | pkg/digest/verify.go:23-54 | accepts exactly when the header holds the body's digest for every required algorithm, and there is one |
| DigestVerify.RequiresSupported | pkg/digest/verify.go:23-54 | nothing is accepted where nothing is required, or an unsupported algorithm is |
| DigestVerify.CreateHashers | pkg/digest/verify.go:84-99 | a fresh hasher for every required algorithm, repeats included |
| DigestVerify.Copy | pkg/digest/verify.go:101-112 | every hasher has absorbed exactly the body, however it is cut into chunks |
| DigestVerify.VerifyContentDigest | pkg/digest/verify.go:73-125 | accepts exactly what the form in memory accepts for the chunks put together, unless the reader fails |
| DigestVerify.PrintedHeaderVerifies | pkg/digest/verify.go:23-54 | a header printed for one body verifies another exactly when the required algorithms are among those printed and do not tell the bodies apart |
| Ecdsa.FitsByBits | pkg/signing/ecdsa.go:296-298 | the check of bit lengths is the bound 256^n |
| Ecdsa.EncodeEcdsaSignature | pkg/signing/ecdsa.go:295-303 | succeeds exactly when both numbers are below 256^n in magnitude, and fills both halves |
| Ecdsa.FillBytes | pkg/signing/ecdsa.go:300-301 | writes the n big-endian bytes of the magnitude and no other byte |
| Ecdsa.BytePlaces | pkg/signing/ecdsa.go:300-301 | the first byte is the most significant |
| Ecdsa.EncodingHalves | pkg/signing/ecdsa.go:295-303 | the first n bytes are the magnitude of r, the last n that of s |
| Ecdsa.DecodeEncoded | pkg/signing/ecdsa.go:295-314 | an encoding has 2n bytes and decodes to the magnitudes, so to the pair itself exactly when neither number is negative |
| Ecdsa.EncodeDecoded | pkg/signing/ecdsa.go:295-314 | decoding succeeds exactly for 2n bytes, and encoding the pair gives them back |

## Left out

- Cryptography: algorithms and hash functions are parameters. `SignVerify.Correct`,
  `SignVerify.OnlySigned` and `SignVerify.AcceptsOnly` are the only assumptions about an
  algorithm, and appear as preconditions. Constant-time comparison is equality.
- Registration of algorithms and its lock: the registry is a map.
- net/http and net/url: a message is a value with given strings for the parts of its URL,
  as the adapter resolves it (pkg/base/adapter.go:42-70);
  field names are folded to lower case where Go uses a title case. A nil header map, on
  which setting a header panics for requests, is not modelled; neither are nil messages.
- Clock and randomness: `now` and `random` are arguments; a zero time is `None`.
- pkg/parser/params_validation.go: a predicate of the verifier, `paramsValid`.
- Error texts and wrapping: only success or failure, and that the context is in range.
- WriteQuoted: strings are bytes, and are copied; the source ranges over code points, and
  would replace invalid UTF-8. Only text beyond ASCII differs, which no parser accepts.
- CanonicalizeFieldValues: trims ASCII white space; strings.TrimSpace also trims Unicode's.
- isValidToken (pkg/sfv/serialize.go:261-282) is not used on these paths.
- Base64 decoders of Go skip CR and LF, which cannot reach them here: the scan stops first.
- Go's int as the dynamic type of a bare item prints like int64 and is not a case of its own.
- SfvGrammar.ParseInteger: Go's ParseInt is modelled for a sign and digits, which is all
  that reaches it.
- Loops and loop bodies with many exits are methods of their own: `ConsumeCharacter`,
  `ParseParameter`, `ParseItems`, `SkipSeparator`, `WriteParameter`, `WriteItems`,
  `WriteEntry`, `WriteMember`, `CollectEntries`, `CollectDigests`, `CopyAndCompare`.
- Capacity of builders and slices: AssembleSignatureBase computes the size it would reserve
  and does nothing with it.
- SignThenVerify: asks that the components do not read the header fields the signer is
  about to set; such a component is signed with the old value and verified with the new,
  and `SignVerify.VerifiesWhileBaseIsSame` says what that comes to.
- VerifiedWasSigned: asks that no value has an LF, and VerifiedPlainWasSigned that no name
  needs an escape; VerifiedClearWasSigned asks nothing of the message that is verified. Of
  what was signed it excludes values with an LF, fields with a string parameter, and names
  that need an escape.
- ListDeterminedExactly: names that need no escape only, and no field with strings that all
  stand in front of a key parameter and behind the last sf; for those lists DeterminedNeeds
  gives what is necessary.
