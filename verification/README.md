# Verification of VOMS

A Dafny model of the parts of VOMS that carry its promises, and proofs about them. VOMS is a
service that certifies a user's groups and roles (FQANs) in a virtual organisation (VO).

- **Command line** (`Exchange`, `OptionDecoding`, `CommandLine`, `WrittenOptions`, `Getopt`): the
  permuting `getopt`. `CommandLine.Scan` is a one-pass parse that moves nothing; `Getopt.Scanner` is
  the C state machine over `optind`, `nextchar`, `first_nonopt` and `last_nonopt`, and every call of
  it is proved to take one reply off that parse. `WrittenOptions` says, without decoding anything,
  how a command line is written and what it asks for; the parse is proved to give just that.
- **Wire** (`Codec`, `Xml`, `AnswerWriting`, `AnswerReading`, `Fqan`, `Request`): the 6-bit codec
  with its meaning in bits, the XML the program prints with a tokenizer for it, the two SAX state
  machines, and the way of a client's FQANs to the server's operations.
- **Server** (`Ordering`, `GenericAttributes`, `Narrowing`, `Concurrency`): ordering, de-duplicating
  and narrowing of FQANs and generic attributes, and the bound on concurrent children.
- **Attribute certificates** (`AttributeCertificate`, `AcIssue`, `AcValidation`, `AcAcceptance`):
  `writeac`, `validate`, and what one makes of the output of the other (RFC 5755). Signing,
  verifying and SHA-1 are a parameter, `Crypto`, of which only two laws are assumed: what a private
  key signs verifies with its public key, and a hash has 20 octets.
- **ProxyCertInfo** (`Der`, `ProxyCertInfo`, `ProxyCertInfoReading`): the two formats of the
  extension (section 3.8 of RFC 3820) over the encoding rules of ITU-T X.690.
- **Helpers** (`Normalize`, `Environ`, `LogRotation`): distinguished names in normal form, `setenv`
  and `unsetenv`, rotation of log files.

`Options`, `Sequences` and `Strings` hold what these share.

Some properties one might expect are false of the code. Each is stated here with its exact
condition, and with an input that shows it:

- Parsing the sorted arguments again, without permuting, does not always give the same replies: an
  option at the end that misses its argument takes an operand the second time
  (`CommandLine.Replay`, `CommandLine.ReplayMayDiffer`).
- `unsetenv` does not always remove a name: of two neighbouring entries with that name one is left
  (`Environ.UnsetRemovesIff`, `Environ.SecondEntryStays`). With unique names it does
  (`Environ.RunRefinesMap`).
- An answer does not always arrive as it was sent. Messages are written unescaped, and of several
  errors the last comes alone: it arrives if and only if there is at most one error and its message
  is plain text (`AnswerReading.AnswerArrivesIff`, `AnswerWriting.RawMessageBreaksTheAnswer`,
  `AnswerReading.SecondErrorHidesTheFirst`).
- Nor does a request. It is not escaped either, and arrives if and only if commands, order and
  targets are plain text (`Request.RequestArrivesIff`, `Request.RawTargetBreaksTheRequest`); and the
  text of an element must come in one portion (`Request.RequestNeedsTextInOnePortion`,
  `Request.FirstPortionIsLost`).
- Sorting generic attributes by line and dropping equal neighbours does not always remove
  duplicates (`GenericAttributes.DuplicatesGoIff`, `GenericAttributes.DuplicateMaySurvive`).
- Extensions a caller hands to `writeac` are not copied one by one: the same one is copied every
  time (`AcIssue.ExtraExtensionsArriveIff`, `AcIssue.TwoExtensionsDoNotArrive`).
- A holder named by entity name is not always compared with the certificate at hand: the code may
  follow pointers it has not set (`AcAcceptance.UndefinedIff`, `AcAcceptance.ComparisonIsUndefinedIff`,
  `AcAcceptance.OwnNameIsNotCompared`).
- The server does not wait only when there are as many children as it allows: the counter it goes
  by is that of accepted connections, up to the maximum (`Concurrency.CounterCountsAccepts`,
  `Concurrency.WaitsWithoutChildren`).

The warning that another FQAN than the one asked for comes first is also given where an empty FQAN
comes first (`Ordering.WarningIff`, `Ordering.EmptyFqanRaisesTheWarning`). Whether there ever is
one depends on the database library, which is not part of the repository; without one the warning
means just what it says (`Ordering.WarningMeansMissing`).

## Model

| member | source | states |
|---|---|---|
| Exchange.ExchangeBlocks | src/replib/getopt_long.c:303-381 | the array afterwards is the old one with the two adjacent segments in the opposite order, each in its own order, and nothing else touched; the number of element swaps is `SwapCount` of the two lengths |
| Exchange.SwapBlocks | src/replib/getopt_long.c:349-356 | two separate blocks of equal length change places, element by element, in exactly as many swaps |
| Exchange.Round | src/replib/getopt_long.c:339-375 | one turn of the outer loop leaves a shorter pair of segments whose exchange gives the same final array and needs exactly the swaps not yet made |
| Exchange.SwapCountIsLengthLessGcd | src/replib/getopt_long.c:339-375 | for segments of lengths a, b > 0 the number of swaps is a + b less the greatest common divisor of a and b: the difference divides both, and every common divisor divides it |
| OptionDecoding.LookupLong | src/replib/getopt_long.c:652-685 | the loop over the long options finds the first exact match if there is one, otherwise the only abbreviation up to equal meaning, and reports ambiguity exactly when abbreviations disagree |
| OptionDecoding.ResolvesUnique | src/replib/getopt_long.c:652-685 | the declarative rule for long names admits one outcome only |
| CommandLine.ScanIsStablePartition | src/replib/getopt_long.c:510-623 | consumed elements and operands interleave to the original arguments, both in original order; unless scanning stops early or `--` was seen, no operand has option syntax |
| CommandLine.InterleavesPermutation | src/replib/getopt_long.c:510-623 | such an interleaving is a permutation: nothing is lost or duplicated |
| CommandLine.Replay | src/replib/getopt_long.c:510-623 | parsing the sorted arguments with REQUIRE_ORDER gives the same replies and the same operands if and only if there is no operand at all or no option at the end misses its argument |
| CommandLine.ReplayMayDiffer | src/replib/getopt_long.c:1141-1183 | the arguments `x -a` with the option string `a:`, where it does not |
| WrittenOptions.WrittenIsRead | src/replib/getopt_long.c:510-1188 | a command line written as options and operands is parsed into what it was written to ask for: a long option resolved to a row gets the text behind `=`, or the next element where an argument is required, with its row, its value, or 0 with the flag set; a short one gets the rest of its element or the next; a missing argument is `:` or `?`, an unknown, ambiguous or unexpected one `?`; operands are put aside, returned or end the scan as the ordering says |
| WrittenOptions.EveryLineIsWritten | src/replib/getopt_long.c:510-1188 | and every command line whatever is written so, under any options and ordering |
| WrittenOptions.LongIsDecoded | src/replib/getopt_long.c:712-820 | the same for one long option: `--name=v`, `--name v`, `--name`, with one dash under `long_only`, found or not |
| WrittenOptions.ShortIsDecoded | src/replib/getopt_long.c:880-1188 | and for the short option that ends a cluster |
| Getopt.Scanner.Initialize | src/replib/getopt_long.c:389-441 | the first call sets both ends of the skipped operands to `optind`; an option string `-s` means RETURN_IN_ORDER with s, `+s` REQUIRE_ORDER with s, and any other is taken whole, with the ordering POSIXLY_CORRECT asks for |
| Getopt.Scanner.ExchangeSegments | src/replib/getopt_long.c:303-381 | the exchange rotates exactly the skipped operands behind the options that follow them, and the two fields delimit the operands in their new place |
| Getopt.Scanner.SkipOperands | src/replib/getopt_long.c:559-575 | permuting and skipping operands changes nothing in the replies, the consumed elements and the operands still to be reported |
| Getopt.Scanner.PassDashes | src/replib/getopt_long.c:577-593 | at `--` the arguments are in their final, sorted order at once |
| Getopt.Scanner.Advance | src/replib/getopt_long.c:548-623 | moving to the next element either ends the scan with the arguments sorted, or reports an operand, or finds an option, and what is still to come is accounted for in each case |
| Getopt.Scanner.TakeOption | src/replib/getopt_long.c:640-876 | decoding one option gives the reply, the rest of the element and the number of elements that the reference decoder gives, and sets `optarg` and `optopt` accordingly |
| Getopt.Scanner.TakeShort | src/replib/getopt_long.c:880-1188 | a short option of a cluster takes no argument, the rest of its element, or the next element, as the option string says; a missing one is reported as `:` or `?` |
| Getopt.Scanner.TakeFound | src/replib/getopt_long.c:700-820 | a long option takes the text behind `=`, or the next element, or reports a missing or unexpected argument, as its entry says |
| Getopt.Scanner.Next | src/replib/getopt_long.c:510-1188 | every call, from any state the calls before left behind, `optind` reset to 0 at any time or moved back between elements included, either takes exactly the next reply off the parse of the arguments still ahead, or ends with the arguments sorted and `optind` at the first operand; first_nonopt <= last_nonopt <= optind after every reply |
| Getopt.Scanner.Run | src/replib/getopt_long.c:510-1188 | a whole run ends; its replies are those of the one-pass parse, and `argv` becomes the program name, then everything consumed, then every operand, in original order, with `optind` at the boundary; and however the arguments were written as options and operands, the replies are what was meant by it |
| Codec.EncodedBits | src/common/xmlcc.cc:167-218 | the letters spell the data bits in groups of six, the last group filled up with zeros; their number is the ceiling of 4n/3 |
| Codec.DecodedBits | src/common/xmlcc.cc:220-265 | decoding any ASCII text gives the whole bytes among the bits its letters spell |
| Codec.RoundTrip | src/common/xmlcc.cc:148-265 | decoding an encoding gives the data back, for all byte strings; the encoding lies in the 64-letter alphabet and has no newline, so that `Decode` never takes it for Base64 |
| Codec.AlphabetOrder | src/common/xmlcc.cc:66-85 | the alphabet is a-z, A-Z, 0-9, [ and ] in this order, and any other character counts as zero |
| Codec.MyEncode | src/common/xmlcc.cc:167-218 | the C loop computes the encoding and never writes outside its buffer of 4n/3 + 2 characters |
| Codec.MyDecode | src/common/xmlcc.cc:220-265 | the C loop computes the decoding and never writes outside its buffer of 3n/4 + 2 bytes |
| Xml.ParseOfPrint | src/common/xmlcc.cc:267-359 | a printed sequence of tags and plain text is tokenized into the same sequence |
| AnswerWriting.XmlAnsEncode | src/common/xmlcc.cc:301-359 | appending piece by piece, the encoder prints the events of the answer: version, all errors in one element, data and certificate in the codec that was asked for; nothing without either |
| AnswerWriting.AnswerIsWritten | src/common/xmlcc.cc:320-359 | the text in full, tag by tag, of an answer with one error, data and a certificate |
| AnswerWriting.AnswerParsesIff | src/common/xmlcc.cc:320-359 | for all messages whatever: the printed document has just the events of the answer if and only if every message is plain text, with none of `<`, `&`, `]]>`, carriage returns, control and non-ASCII characters |
| AnswerWriting.RawMessageBreaksTheAnswer | src/common/xmlcc.cc:341-345 | a message with a `<` for which it has not |
| AnswerReading.Handler.EndAns | src/common/xmlcc.cc:460-520 | the end handler moves the reading state as the transition function says, in every state and for every element name |
| AnswerReading.NewlineMeansBase64 | src/common/xmlcc.cc:148-165 | in any state and any portions, an "ac" or "bitstr" element leaves in the answer the Base64 of its text if this has a newline, and otherwise its 6-bit decoding; nothing decoded is an error |
| AnswerReading.CodeMeansNumber | src/common/xmlcc.cc:503-515 | an error with a code has the number 1001, 1004, 1003 or, for any other code, 1006 |
| AnswerReading.WarningIsAppended | src/common/xmlcc.cc:497-502 | a warning is appended to the errors with number 0 |
| AnswerReading.Handler.Feed | src/common/xmlcc.cc:403-551 | the handlers, called event by event, reach the state of the transition function's run |
| AnswerReading.DepthStaysBounded | src/common/xmlcc.cc:404-414 | the depth stays within 0 to 4 for any sequence of events whatever |
| AnswerReading.PortionsDoNotMatter | src/common/xmlcc.cc:535-550 | two sequences of events that differ only in how text is cut into portions give the same answer, from any state |
| AnswerReading.PlainAnswerArrives | src/common/xmlcc.cc:320-359 | with plain messages, in any codec that `Decode` inverts: print, tokenize, cut text into any portions, run the handlers; non-empty certificate and data arrive byte for byte, the version as 3, and of the errors the last |
| AnswerReading.EitherCodecArrives | src/common/xmlcc.cc:148-165 | without errors, the answer arrives byte for byte in the 6-bit codec and in Base64 alike, as long as each Base64 encoding has a newline |
| AnswerReading.SixBitIsCodec | src/common/xmlcc.cc:148-265 | the 6-bit codec is one that `Decode` inverts, whatever Base64 does |
| AnswerReading.AnswerArrivesIff | src/common/xmlcc.cc:320-359 | for any errors and any such codec: the answer arrives as it was sent, in whatever portions, if and only if there is at most one error and its message is plain text |
| AnswerReading.SecondErrorHidesTheFirst | src/common/xmlcc.cc:483-496 | two errors of which the second arrives alone |
| AnswerReading.ReadingRecoversTheAnswer | src/common/xmlcc.cc:403-551 | the same on events, for any errors; no error flag is set and all elements are closed |
| AnswerReading.ErrorsSurviveIff | src/common/xmlcc.cc:483-496 | for the events of any answer in any portions, the errors the handlers leave in the caller's answer are those sent, behind those that were there, if and only if there is at most one |
| Fqan.ParseFqan | src/common/fqan.cc:35-79 | the client's loop joins the commands with commas, and gives up exactly when some FQAN has a capability |
| Fqan.ClientCommand | src/common/fqan.cc:49-79 | "all", a group and a group with role become the commands A, G and B, without a comma in them; without commands, what stands behind the letter |
| Fqan.ClientCommandForms | src/common/fqan.cc:49-79 | for any text: the client gives up if and only if "/Capability=" occurs in it; it cuts at the first "/Role=", with B or, at the very start, R; without one, text from a slash on is G, and any other is left as it is |
| Fqan.ServerUnderstands | src/server/vomsd.cc:1329-1421 | the server's parser reads such a command as the operation, the group and the role that were meant |
| Fqan.OtherCommands | src/server/vomsd.cc:1329-1421 | "all" asks for everything and "//" for nothing, "/Role=" separates like ":", and text without a slash in front is its own group, for R its own role too |
| Fqan.AcceptedIsAcceptable | src/common/data.cc:69-115 | no group and no role is accepted with a character outside the list of letters, digits and four signs |
| Request.XmlReqEncode | src/common/xmlcc.cc:267-299 | the encoder prints one command element for each piece that `getline` cuts out, then order, targets, version and lifetime |
| Request.RequestIsWritten | src/common/xmlcc.cc:267-299 | the text of a request in full, tag by tag |
| Request.Handler.Feed | src/common/xmlcc.cc:416-458 | the request handlers, called event by event, reach the state of their transition function's run |
| Request.NestingIsBounded | src/common/xmlcc.cc:416-432 | elements nest no deeper than two for any events whatever, and after an error nothing more is read |
| Request.RequestParsesIff | src/common/xmlcc.cc:267-299 | the printed request has just the intended events if and only if commands, order and targets are plain text |
| Request.RequestArrivesIff | src/common/xmlcc.cc:267-299 | the whole way, printed, tokenized and read by the handlers: the request is the one sent if and only if commands, order and targets are plain text |
| Request.RawTargetBreaksTheRequest | src/common/xmlcc.cc:286-287 | a target with a `<` for which it is not |
| Request.ReadingRecoversTheRequest | src/common/xmlcc.cc:416-534 | reading these events gives the commands, order, targets and lifetime back |
| Request.RequestNeedsTextInOnePortion | src/common/xmlcc.cc:522-533 | a command, order or targets element whose text comes in portions leaves the request it would leave with the text in one, if and only if all portions but the last are empty: the handler overwrites |
| Request.FirstPortionIsLost | src/common/xmlcc.cc:522-533 | a command in two portions of which only the second arrives |
| Request.WishesArrive | src/common/fqan.cc:35-79 | for every list of wishes, and any order and targets: joined by the client, printed, tokenized and read, the commands arrive in order, with order and targets, if and only if these two are plain; and each command is understood as the operation A, G or B with its group and role |
| Ordering.ParseOrder | src/server/vomsd.cc:240-285 | the order map ranks every mentioned FQAN by its first mention, and the first non-empty one is reported |
| Ordering.BeforeIsStrictWeakOrder | src/server/vomsd.cc:215-231 | `compare` is irreflexive and transitive, and so is incomparability, as std::partial_sort demands |
| Ordering.SortedUnique | src/server/vomsd.cc:981-983 | sort and unique leave every FQAN exactly once |
| Ordering.SortedPartCovers | src/server/vomsd.cc:233-238 | the sorted part is long enough: every FQAN that was mentioned ends up within it |
| Ordering.FqansComeOrdered | src/server/vomsd.cc:976-992 | the final list has the retrieved FQANs, each once, all mentioned ones before all others and in order of first mention |
| Ordering.WarningIff | src/server/vomsd.cc:994-1001 | the warning is given if and only if something is released and the FQAN asked for first is absent, or an empty FQAN mentioned before it is present |
| Ordering.WarningMeansMissing | src/server/vomsd.cc:994-1001 | where no empty FQAN is released, the warning is given if and only if the FQAN asked for first is absent |
| Ordering.EmptyFqanRaisesTheWarning | src/server/vomsd.cc:994-1001 | a list in which an empty FQAN raises the warning although the other one is there |
| Ordering.ClientOrderIsMentioned | src/common/fqan.cc:35-79 | the order list a client sends mentions its FQANs, in its order |
| Ordering.DefaultOrderIsCommandOrder | src/server/vomsd.cc:1463-1476 | without an order list, the list built from the commands mentions the FQANs in the order of the commands |
| GenericAttributes.StrInjective | src/include/dbwrap.h:62-71 | attributes with ':'-free qualifiers and '='-free names have different lines when they differ |
| GenericAttributes.DuplicatesGoIff | src/server/vomsd.cc:985-988 | in whatever order the sort leaves attributes with one line, no duplicate survives if and only if no attribute that is there twice shares its line with a different one |
| GenericAttributes.AttributesComeOnce | src/server/attribute.cc:30-41 | without such a clash, every attribute is left exactly once |
| GenericAttributes.WellFormedComeOnce | src/server/attribute.cc:30-41 | attributes with ':'-free qualifiers and '='-free names never clash, and are left exactly once |
| GenericAttributes.DuplicateMaySurvive | src/server/vomsd.cc:985-988 | three attributes with one line and a sort of them that leaves a duplicate |
| GenericAttributes.SplitLineRecoversIff | src/ac/write.c:185-235 | the splitter gives back qualifier (the VO for none), name and value if and only if the qualifier has no "::" and no colon at its end, and the name no '=' |
| GenericAttributes.LineIsSplit | src/ac/write.c:185-235 | any line is cut at its first "::" and the first '=' behind it, and refused without one |
| Narrowing.Narrow | src/server/vomsd.cc:1004-1071 | the loops reformat the FQANs, remove what the holder does not have, then the attributes that depended on it, and refuse when nothing is left |
| Narrowing.DecisionIsExact | src/server/vomsd.cc:1004-1071 | refused exactly when nothing asked for was held; otherwise exactly the FQANs asked for and held are released, in order, with the subset warning exactly when some were withheld, and then only attributes without qualifier or qualified by a released FQAN |
| Narrowing.RightsNeverChange | src/server/vomsd.cc:1004-1071 | once a holder has FQANs of the VO, any run of delegations leaves the set of them as it is |
| Narrowing.DelegationNeverWidens | src/server/vomsd.cc:1004-1071 | in every run, each later certificate has only FQANs held at the start, in the order retrieved, warns exactly when some were withheld, and then has only attributes without qualifier or qualified by a released FQAN |
| Concurrency.StepKeepsInvariant | src/server/vomsd.cc:648-807 | accept, wait, fork (also failing), exit and reaping, in any order, keep unreaped children strictly below the counter while a request is pending and the counter within its bound |
| Concurrency.ChildrenAreBounded | src/server/vomsd.cc:648-807 | in every interleaving, unreaped children never exceed the maximum, and between requests unreaped <= active <= maximum |
| Concurrency.NeverStuck | src/server/vomsd.cc:720-732 | in every reachable state some step is possible |
| Concurrency.WaitEnds | src/server/vomsd.cc:720-732 | in every run, each step made while the parent waits uses up one of the at most two steps left to every child, so that no wait lasts longer than twice the maximum of steps |
| Concurrency.WaitCanReturn | src/server/vomsd.cc:720-732 | a reachable waiting parent none of whose children runs any more returns with the next step |
| Concurrency.CounterCountsAccepts | src/server/vomsd.cc:715-732 | in every run, the counter at select is the number of connections accepted so far, up to the maximum; so the server waits for a connection if and only if more than the maximum were accepted, however many children there are |
| Concurrency.WaitsWithoutChildren | src/server/vomsd.cc:188-201 | for every maximum, a run in which all children have been reaped by the handler and the server waits nevertheless |
| Concurrency.InterruptsBoundTheExcess | src/server/vomsd.cc:720-732 | in every run in which `wait` may also return before anything was reaped, unreaped children exceed the maximum by no more than the number of such returns |
| Concurrency.ExcessIsAttained | src/server/vomsd.cc:720-732 | and for every maximum and every k there is a run with k such returns that ends with k children too many |
| AcIssue.WriteAc | src/ac/write.c:84-347 | `writeac` fails exactly for an attribute line without '=' or when it counts past the caller's extensions; otherwise it returns the certificate of `InfoOf`, signed with the issuer's key |
| AcAcceptance.IssuedForIff | src/ac/write.c:128-131 | the holder of an issued certificate matches a certificate if and only if this has the holder's serial number, no issuer UID, and the holder's issuer, or in the old format the holder's subject, as its issuer or subject |
| AcAcceptance.IssuedProfile | src/ac/write.c:128-347 | it has version 1, the issuer's UID, the dates asked for, and a chain that ends with a certificate under which it verifies |
| AcAcceptance.IssuingFailsIff | src/ac/write.c:185-306 | the two errors, each with its exact condition on lines and extensions |
| AcIssue.SplitTargets | src/ac/extensions.c:409-452 | cutting the list in place gives one URI for each piece between commas, empty pieces included |
| AcIssue.Complete | src/ac/create.cc:50-80 | the targets are joined with commas, and an empty list is passed on as none |
| AcIssue.ServerLinesSplitIff | src/ac/write.c:185-235 | the server's own attribute lines are never refused, and each attribute comes back if and only if its line splits where it was joined |
| AcIssue.ExtraExtensionsArriveIff | src/ac/write.c:291-306 | the issued certificate ends with the caller's extensions as given if and only if there are none, or the number of chain certificates (of attribute lines, without a chain) is below theirs and all are equal to the one at that position |
| AcIssue.TwoExtensionsDoNotArrive | src/ac/write.c:291-306 | no certificate ever ends with two different extensions of the caller |
| AcValidation.Validate | src/ac/validate.cc:206-382 | the checks in the order of the code give the verdict, also where the certificate of the holder or of the issuer is missing and where the holder is named by entity names |
| AcAcceptance.ReportIsTrue | src/ac/validate.cc:206-481 | every report under any flags, the certificates at hand or missing, is true of the certificate field by field: serial number, both dates, user, server and both CAs, VO name and URI, every FQAN with its parts, in order, and the attributes |
| AcAcceptance.ErrorsAreTrue | src/ac/validate.cc:206-623 | and so is every error: what it names is wrong with the certificate |
| AcValidation.CheckExtensions | src/ac/validate.cc:483-623 | the walk over the critical extensions reports the first one that is no list of targets or does not name the host; the key identifier is compared when it has 20 octets, and without an issuer refused unless the identity was checked |
| AcValidation.CheckAttributes | src/ac/validate.cc:384-481 | the policy authority is cut at its first "://", every FQAN is kept in order and taken apart, and the first flaw decides the error |
| AcValidation.CriticalsPassIff | src/ac/validate.cc:504-548 | no complaint arises from the walk exactly when none of the critical extensions is objectionable |
| AcAcceptance.AcceptedUnderIff | src/ac/validate.cc:206-382 | under any flags, with certificates at hand or missing, just those certificates are accepted for which holds what the flags ask for: signature, holder, issuer's name, dates by five minutes, targets, key identifier, required extensions and well-formed attributes |
| AcAcceptance.AcceptedIff | src/ac/validate.cc:206-382 | full verification accepts exactly the certificates signed by the issuer they name, both certificates at hand, for the holder's serial number and name, within the dates by five minutes, with the required extensions, with no critical extension but the first list of targets and the host in it, and with well-formed attributes |
| AcAcceptance.UndefinedIff | src/ac/validate.cc:206-335 | for any certificate, flags, time and certificates at hand or missing: the outcome is undefined if and only if the signature is passed, and the issuer is missing and the form does not start with a directory name, or an identity check meets an entity name that is no first directory name of several in a first list of several, or it meets a matching holder, a form with one name and no issuer |
| AcAcceptance.ComparisonIsUndefinedIff | src/ac/validate.cc:305-320 | the same with both certificates at hand: only the entity name matters |
| AcAcceptance.OneEntityNameIsUndefined | src/ac/validate.cc:305-320 | in particular for a single list of entity names, the form of section 4.2.2 of RFC 5755 |
| AcAcceptance.OwnNameIsNotCompared | src/ac/validate.cc:305-320 | a certificate for the very name of the holder at hand, whose check is undefined |
| AcAcceptance.IssuedIsAcceptedIff | src/ac/write.c:84-347 | under any flags and at any time, an issued certificate is accepted for its holder and issuer unless the holder has an issuer UID (identity check), the serial number exceeds 20 octets, the date is outside the tolerance, the host is not among the targets, or the caller's own extension is critical and not the only list of targets or does not name the host; the error tells which comes first; accepted, FQANs and attributes come back, and VO name and URI exactly when the name has no "://" |
| AcAcceptance.AuthorityIsSplitIff | src/ac/write.c:58-82 | VO name and URI are told apart again if and only if the name has no "://" |
| AcAcceptance.FqanIsSplitIff | src/ac/validate.cc:433-470 | group, role and capability of a long FQAN are told apart again if and only if the group has no "/Role=" or "/Capability=" and the role no "/Capability=" |
| AcAcceptance.ShortFqanIsSplitIff | src/ac/validate.cc:433-470 | the same for a group with a role and for a group alone |
| AcAcceptance.CapabilityIsSplit | src/ac/validate.cc:433-470 | a capability without a role is told apart from its group |
| AcAcceptance.CapabilityInFront | src/ac/validate.cc:433-470 | a capability in front of a role is taken for a part of the group, and the role for a part of the capability |
| AcAcceptance.LongFormatIsSplit | src/server/vomsd.cc:1021-1036 | in the server's long format, group and role come back and what is missing is NULL; the short format leaves FQANs as they are |
| AcAcceptance.TargetsAreTheHosts | src/ac/create.cc:60-66 | for comma-free targets, the hosts admitted are exactly the targets asked for, and all when the joined list is empty |
| AcAcceptance.GrantIsReadBackIff | src/server/vomsd.cc:1004-1018 | looking up with signature verification what it issued, the server finds the same VO and FQANs if and only if the serial number is not too long and the VO name has no "://" |
| ProxyCertInfo.RoundTrip | src/sslutils/proxycertinfo.c:276-368 | reading an encoding, with anything behind it, gives path length and policy back; the version too, unless and only unless it was 4 without a path length |
| ProxyCertInfo.ShortOctets | src/sslutils/proxycertinfo.c:276-323 | the octets themselves of a small value in both versions, with all tags and the place of the path length |
| ProxyCertInfo.OtherFormsAreRead | src/sslutils/proxycertinfo.c:153-174 | a policy under the implicit tag [0], and a path length with its explicit tag in front, are read though never written |
| ProxyCertInfo.TagsCompared | src/sslutils/proxycertinfo.c:153-174 | of a sequence only the number of the tag counts; an octet string is optional unless the tag is there with the constructed bit, which is an error |
| ProxyCertInfo.V3RefusesV4 | src/sslutils/proxycertinfo.c:325-341 | the decoder for version 3 never accepts a version 4 value with a path length |
| ProxyCertInfo.I2dPolicy | src/sslutils/proxycertinfo.c:130-151 | the size pass gives exactly the number of octets the writing pass writes, and nothing else of the buffer changes |
| ProxyCertInfo.I2d | src/sslutils/proxycertinfo.c:276-323 | the same for both versions, and -1 with the buffer untouched for any other |
| ProxyCertInfoReading.D2iPolicy | src/sslutils/proxycertinfo.c:153-174 | reading at a position of a buffer gives what the decoder on octets gives, and the position ends up behind it, or stays on failure |
| ProxyCertInfoReading.D2i | src/sslutils/proxycertinfo.c:325-368 | the same for the decoder that tries version 3 first and then version 4 from the same position |
| ProxyCertInfoReading.WriteThenRead | src/sslutils/proxycertinfo.c:276-368 | written into a buffer and read from it, a value comes back, the version with the one exception, and the position is behind what was written |
| Der.ReadHeaderOfObject | src/sslutils/proxycertinfo.c:130-151 | tag and definite length of any object, in the short and the long form, are read back with whatever follows |
| Der.LengthForms | src/sslutils/proxycertinfo.c:130-151 | a length is one octet below 128, and otherwise the number of octets that follow, most significant first |
| Der.IntegerRoundTrip | src/sslutils/proxycertinfo.c:276-309 | the two's complement octets of any integer, negative ones included, have its value |
| Der.IntegerForms | src/sslutils/proxycertinfo.c:276-309 | the octets themselves for integers of up to 16 bits, negative ones included |
| Normalize.Change | src/common/normalize.c:32-53 | the loop ends and has replaced every occurrence |
| Normalize.OneReplacement | src/common/normalize.c:32-53 | replacing the first occurrence leaves one occurrence less, makes no new one, and continuing behind the replacement misses none, although the text may grow |
| Normalize.UnchangedIff | src/common/normalize.c:32-53 | a text is unchanged if and only if the key does not occur |
| Normalize.NormalizeName | src/common/normalize.c:55-66 | three replacements one after the other amount to one rewriting of each component between slashes |
| Normalize.NoOldKeys | src/common/normalize.c:55-66 | none of the three old keys is left |
| Normalize.NormalFormIff | src/common/normalize.c:55-66 | exactly the names without an old key are unchanged; normalizing is idempotent |
| Normalize.LastComponentIsRewritten | src/common/normalize.c:55-66 | behind any name, a component `USERID=v` becomes `UID=v`, `emailAddress=v` and `E=v` become `Email=v`, and any other stays |
| Environ.SetRefinesMap | src/replib/setenv.c:80-162 | setting gives the name its value, unless it has one that is not to be replaced, and leaves every other name alone, prefixes included |
| Environ.GetReadsEntries | src/replib/setenv.c:75-100 | an entry "m=v" in front gives m the value v and leaves other names to the entries behind it |
| Environ.UnsetLeavesOthers | src/replib/setenv.c:164-185 | unsetting never changes the value of another name, whatever the environment |
| Environ.UnsetRemovesIff | src/replib/setenv.c:164-185 | the name is gone if and only if no two neighbouring entries carry it |
| Environ.SecondEntryStays | src/replib/setenv.c:164-185 | two neighbours of which one stays |
| Environ.RunRefinesMap | src/replib/setenv.c:80-185 | from unique names, any run of calls keeps names unique and gives every name the value a map would give it |
| Environ.Environment.SetEnv | src/replib/setenv.c:80-162 | searching, reallocating and appending in the array gives the entries of `SetEntries`, with a null pointer at the end |
| Environ.Environment.UnsetEnv | src/replib/setenv.c:164-185 | shifting pointers back in the array gives the entries of `UnsetEntries`, with a null pointer at the end |
| LogRotation.Directory.HighestSuffix | src/log/fs.c:254-267 | the scan finds a bound on every number behind the file's name, and one that is taken unless it is 0 |
| LogRotation.Directory.ShiftNumbered | src/log/fs.c:270-282 | counting down, every numbered file moves up by one, gaps included, and number 1 becomes free |
| LogRotation.Directory.Rotate | src/log/fs.c:231-296 | with the lock free, the directory is rotated and success reported exactly when there was a main file; with the lock taken, nothing changes |
| LogRotation.RotationLosesNothing | src/log/fs.c:254-290 | every file is found with its content under its new name, no two under one, and there is no other file |

## Left out

- Sockets, TLS, the database, logging, option tables, usage text, REST queries and policy evaluation: not part of this model.
- `src/replib/getopt_long_only.c`: the same code as the `getopt` modelled here.
- Getopt.Scanner.Next: not when the caller moves `optind` back in the middle of a cluster of short options, where the C code decodes on in one element and goes by another; not for option strings with `W;`, a GNU extension the clients do not use; the messages printed are not modelled, nor options whose value is -1, which a caller cannot tell from the end.
- Base64 (`src/common/xmlcc.cc:90-146`): a parameter of encoder and handlers; where it is used, the theorems assume that it writes plain text with a newline in it and decodes what it has encoded.
- Codec.MyDecode: for ASCII text; the C table has no entry for other bytes, and what comes of them is left open like Base64.
- expat: `Xml.ParseDocument` knows tags without attributes, a declaration in front, and text; entities, comments, processing instructions, CDATA sections and the nesting check are not in it, and a document with them is none or has other events.
- AnswerReading.AnswerArrivesIff: of the caller's answer; the error flag of the handlers is not what `XML_Ans_Decode` returns, it returns expat's verdict.
- Fqan.ServerUnderstands: commands for '/'-prefixed groups; the others are in `Fqan.OtherCommands`. Where the C code compares a null group (`/Role=r`, `/`) the model has a verdict of its own, `Undefined`.
- Ordering.SortedUnique, Ordering.FqansComeOrdered: std::sort and std::partial_sort enter by what the C++ standard guarantees of them, not by an algorithm.
- Narrowing.DelegationNeverWidens: reading the holder's earlier certificates is a concatenation of their FQANs; `AcAcceptance.GrantIsReadBackIff` says what that rests on.
- Concurrency.ChildrenAreBounded: `wait` is assumed to return only after some child was reaped or when none is left.
- AcIssue.WriteAc: a line without "::", a null pointer in C, is excluded; the server never makes one. Signature algorithms and memory failures are not modelled. Certificates are values: the DER of attribute certificates (`src/ac/newformat.c`) is not modelled.
- AcValidation.Validate: where the code follows a pointer that is null or was never set, the verdict is `Undefined`, which is no error of its own. A key identifier extension without a key identifier is refused, as the code does in the end. The grantor of attributes is its first name. `realdata` starts empty. The host name is a parameter.
- ProxyCertInfo.RoundTrip: parts shorter than 2^28 octets, so that the C lengths do not overflow; indefinite lengths and the checks OpenSSL makes inside object identifiers are left out.
- Normalize.Change: for keys like the three in use, which start at a slash and do not start each other.
- Environ.Environment.SetEnv: a longer value is a new string and a shorter one overwrites the old one in C; here both are a new value, so what other holders of the old string see is not captured. Allocation succeeds. Names have no '='.
- LogRotation.Directory.Rotate: one directory, renaming succeeds when the file exists, numbers do not overflow.
- C `int` counters are unbounded integers throughout.
