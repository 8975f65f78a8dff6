# FreeWnn dictionary engine, verified

A Dafny model of the data-structure core of FreeWnn: the kana-to-kanji server's dictionaries and
the bookkeeping around them. Everything that changes is modelled as it changes, in arrays and
fields, and proved against functions of the values before.

- `WString`, `Sequences`, `Jdata`: the order and the prefix test on texts that all indexes rest on; inserting
  and removing; shared constants.
- `PrefixIndex`, `WordChains`, `IndexMeaning`: the sorted key table with its prefix links, the chains
  of words below its keys, and what the two together mean: they are determined by the live words,
  and the lookup delivers exactly the words whose key is a prefix of the input (binary searches and
  lookup follow Wnn/jserver/jbiki.c:566-745).
- `KanjiPool`: the pool of word records, byte by byte, with lengths that wrap at 256 and records
  forwarded to replacements. "Legible" means: inside the bytes that the length bytes count. The source reads
  up to terminators instead (`Readable`, `Said`), which is more.
- `RevWords`, `RevDict`: the updatable dictionary with a reverse index, a map from serial to word kept
  in two tables over one pool; adding, deleting and commenting.
- `UserChains`, `UserDict`: the user dictionary, where chain nodes stand for intervals of serials;
  deletion in its four cases, and comments. Its table is kept by the same shifts and renumberings
  (Wnn/jserver/jishoop.c:429-467) as the reverse dictionary's.
- `ByteOrder`, `SdLayout`, `RevDic`, `RevRecords`: turning dictionary bodies from one byte order into
  the other, in both traversal orders.
- `StaticTrie`: the serial lookup in a static dictionary's node tree, over the same byte layout.
- `StrokeTrie`: the stroke index, a trie whose nodes do not hold their own characters, with its
  search (Wnn/jserver/jbiki_b.c:97-197).
- `BlockExchange`, `OptionDecode`, `ScanMeaning`, `GetoptScan`: getopt, from the block exchange and the single step
  to whole scans, and when they are what they are meant to be.
- `OptionMeaning`, `ArgumentVector`: what an option is by the characters that spell it, and vectors spelled
  from options and operands, which scans give back.
- `Ownership`, `FileServer`, `FreqTables`: which environment holds which file, which dictionary entry
  belongs to which environment, and the sizes of attached frequency tables.
- `ClientBuffer`: buffered reading and writing between the input server and a client.

`dafny verify dfyconfig.toml` checks the project.

Where the code does not do what it is there for, the model follows the code; the condition under which it
does is proved in both directions:

- A word record's length is kept in one byte. word_add lets words through whose record is longer
  (`RevDict.Dictionary.WordAdd`, `RevDict.FitsExactly`); such a record is read by its terminators
  until a later one is written over it (`KanjiPool.PackedIsRead`, `KanjiPool.WordOf125`).
- A comment that outgrows its record is forwarded through six bytes of the old one; a user dictionary's record
  with an empty kanji has four (`KanjiPool.RecordPool.CommentSet`, `KanjiPool.DamagedNeighbour`).
- word_comment_set does not look whether the serial of a reverse dictionary is still a word. Exactly the
  word asked for changes if and only if the serial is one (`RevDict.Dictionary.WordCommentSet`). For
  another serial no word changes where the record it points to belongs to none; a word whose record has
  been stored there since gets the comment (`RevDict.CommentOnWrongWord`); and a serial that a comment
  used up points to 0xffffffff, where there is no record. Where it forwards a record of a reverse dictionary it uses up a
  serial and tells no frequency table (`FreqTables.Tables.CommentSet`, `FreqTables.CommentOutOfStep`).
- js_file_read ignores what add_fid_to_env answers (`FileServer.Server.FileRead`,
  `FileServer.FileWithoutHolder`).
- Discarding a frequency file deletes only the first entry that uses it
  (`FileServer.Server.FileDiscard`, `FileServer.SharedFrequencyFile`).
- A stroke index node keeps serials and links in a `short`: a key table has an index exactly when its keys have
  fewer than 0x8000 different prefixes and its serials are below 0x8000 (`StrokeTrie.StrokeIndex.EnterKeys`,
  `StrokeTrie.TooManyPrefixes`).
- getopt moves optind once too often for an ambiguous -W name, so that an operand is lost among the
  options, or the scan ends behind the vector (`OptionDecode.StepTakes`, `ScanMeaning.AmbiguousNameSwallows`);
  it skips the ordering flag on the first call only, and later takes the flag for an option character
  (`OptionDecode.FlagChangesStep`, `ScanMeaning.FlagTakenForOption`). `ScanMeaning.ScanIsMeant` and
  `GetoptScan.ScanAll` say when a whole scan meets neither.
- `opterr`, documented to silence messages, decides the outcome for a long option that is given an argument
  it does not take, but not behind -W (`OptionDecode.SilenceChangesOutcome`, `OptionDecode.SilenceAccepts`).
- rd_binary returns the longest stored prefix (Wnn/jserver/jbiki.c:680-712), not only an exact match; the
  deletions use it with a key that is stored.

## Model

| member | source | states |
|---|---|---|
| `WString.Strcmp` | Wnn/etc/strings.c:78-90 | the sign of the result is the lexicographic order of the two texts up to their terminators |
| `WString.Substr` | Wnn/etc/strings.c:93-102 | true exactly when the first text is a prefix of the second |
| `WString.Sreverse` | Wnn/etc/strings.c:170-184 | the destination holds the text backwards and its terminator, the rest is untouched |
| `WString.ReverseReverse` | Wnn/etc/strings.c:170-184 | reversing twice gives the text back |
| `WString.PrefixIsBelow` | Wnn/etc/strings.c:78-102 | a prefix never comes after the text in the order |
| `WString.PrefixInterval` | Wnn/etc/strings.c:78-102 | texts with a common prefix stand next to each other: whatever lies between a prefix and an extension of it extends it too |
| `WString.LessTransitive` | Wnn/etc/strings.c:78-90 | the order is transitive (with LessTotal: a strict total order) |
| `WString.LessTotal` | Wnn/etc/strings.c:78-90 | of two different texts one comes first |
| `PrefixIndex.RdBinary1` | Wnn/jserver/rd_jishoop.c:144-154 | the last key at or below the query, or -1: all keys up to it are at most the query, all behind it greater |
| `PrefixIndex.FirstPrefix` | Wnn/jserver/rd_jishoop.c:153-165 | from there, following links, the first prefix met is the longest stored prefix of the query |
| `PrefixIndex.RdBinary` | Wnn/jserver/rd_jishoop.c:222-227 | the entry of the longest stored prefix of the query, or -1 when none is stored |
| `PrefixIndex.RdBinarySame` | Wnn/jserver/rd_jishoop.c:111-113 | the entry equal to the query; -1 exactly when it is not stored |
| `PrefixIndex.WalkEnumeratesPrefixes` | Wnn/jserver/rd_jishoop.c:153-165 | the link walk from the longest stored prefix meets exactly the stored prefixes of the query, longest first |
| `PrefixIndex.LinksAreUnique` | Wnn/jserver/rd_jishoop.c:140-190 | a sorted table has only one correct set of prefix links |
| `PrefixIndex.MakeSpace` | Wnn/jserver/rd_jishoop.c:315-328 | entries from the key on move up by one and links at or above it are renumbered |
| `PrefixIndex.RemoveSpace` | Wnn/jserver/rd_jishoop.c:330-345 | entries behind the key move down; links above it are renumbered and links to it go to its parent |
| `PrefixIndex.Reparent` | Wnn/jserver/rd_jishoop.c:172-182 | exactly the entries that the new key is now the longest proper prefix of are linked to it |
| `PrefixIndex.AddKey` | Wnn/jserver/rd_jishoop.c:144-190 | after adding, the table is strictly sorted, every link leads to the longest other key that is a proper prefix, and the keys are the old ones and the new one |
| `PrefixIndex.InsertLinkedAt` | Wnn/jserver/rd_jishoop.c:153-182 | why the re-parenting loop is right: what each link must be after an insertion |
| `PrefixIndex.RemoveKey` | Wnn/jserver/rd_jishoop.c:236-249 | removing a key keeps order and links: its children hang on its parent, which is their longest remaining proper prefix |
| `PrefixIndex.RemoveLinked` | Wnn/jserver/rd_jishoop.c:330-345 | links lowered past the removed key are the links of the smaller table |
| `WordChains.RevTable.Add` | Wnn/jserver/rd_jishoop.c:140-190 | the word is put in front of the chain of its key, the key being made if it is new; all else about the index stays |
| `WordChains.RevTable.Delete` | Wnn/jserver/rd_jishoop.c:214-249 | the word leaves its chain, and the key leaves with its last word; all other words stay where they were |
| `WordChains.RevTable.FindLink` | Wnn/jserver/rd_jishoop.c:227-235 | the link that leads to the serial is found and the walk ends |
| `WordChains.ChainUnlink` | Wnn/jserver/rd_jishoop.c:227-235 | bending one link takes exactly that serial out of a chain |
| `WordChains.ChainDescends` | Wnn/jserver/rd_jishoop.c:183-190 | chains run through strictly descending serials, so every walk ends |
| `WordChains.IndexDropLast` | Wnn/jserver/rd_jishoop.c:251-257 | giving up a dead last serial keeps the index |
| `WordChains.IndexAddDead` | Wnn/jserver/jishoop.c:665-679 | using up a serial keeps the index |
| `IndexMeaning.IndexCanonical` | Wnn/jserver/rd_jishoop.c:140-249 | table, links and chains are determined by the live words alone, in whatever order they came and went |
| `IndexMeaning.DeliversPrefixes` | Wnn/jserver/rd_jishoop.c:153-190 | what links and chains are kept for: the chains met on the link walk from the longest stored prefix hold exactly the words whose key is a prefix of the query, longest keys first and the newest word first under each |
| `KanjiPool.Kanjiaddr` | Wnn/etc/bdic.c:980-1034 | the record is written; its length byte is the length modulo 256; nothing outside it changes |
| `KanjiPool.PackedBytes` | Wnn/etc/bdic.c:980-1034 | which byte stands where in a packed record: length, the bits for reading and comment, the texts with their terminators, low bytes first |
| `KanjiPool.PackedReadsBack` | Wnn/etc/bdic.c:980-1034 | a packed record can be read back inside the bytes that its length byte counts exactly when it is at most 255 bytes long, and then says what was packed |
| `KanjiPool.PackedIsRead` | Wnn/etc/bdic.c:879-911 | by its terminators, as the source reads, a packed record is read back whatever its length, as long as nothing is written over it |
| `KanjiPool.LegibleIsReadable` | Wnn/etc/bdic.c:879-911 | reading by terminators and reading by lengths agree on every record that its length byte covers |
| `KanjiPool.CutIsIllFormed` | Wnn/etc/bdic.c:980-1034 | the bytes that a truncated length byte counts do not hold all terminators of the record |
| `KanjiPool.GetKanjiStrR` | Wnn/etc/bdic.c:879-911 | where kanji, reading and comment of the record start, behind all forwardings; the length byte is not looked at |
| `KanjiPool.GetKanjiStr` | Wnn/etc/bdic.c:852-876 | the three texts of the record, reading and kanji turned round |
| `KanjiPool.GetKnj2` | Wnn/etc/bdic.c:838-850 | the texts of record kanji2 of a row of records |
| `KanjiPool.FetchPacked` | Wnn/etc/bdic.c:838-850 | of records packed one after another the k-th is the k-th that was packed |
| `KanjiPool.RecordPool.Kanjiadd` | Wnn/jserver/jishoop.c:408-427 | a record is appended, everything before it stays; the pool grows by its length modulo 256, and it is covered by its length byte exactly when it fits |
| `KanjiPool.OverwrittenRecord` | Wnn/jserver/jishoop.c:408-427 | a record of a length that is a multiple of 256 reads back, until the next addition is written to its place |
| `KanjiPool.WordOf125` | Wnn/jserver/jishoop.c:67-81 | a word of 125 characters, far below the limits of word_add, is such a record |
| `KanjiPool.RecordPool.CommentSet` | Wnn/jserver/jishoop.c:638-659 | the record gets the comment, in place or through one forwarding, keeps its kanji (and its reading, unless a user dictionary forwards it), and every record that shares no byte with it is unchanged; legible exactly when a forwarded header has the six bytes an address takes and the new record fits its length byte; only the comment or the header is written over |
| `KanjiPool.DamagedNeighbour` | Wnn/jserver/jishoop.c:653-657 | a four-byte record in front of a word with a comment: after a comment for the first, the second reads without its comment |
| `KanjiPool.SpilledDistance` | Wnn/jserver/jishoop.c:653-657 | the last two bytes of the distance become length and state byte of what stands behind a four-byte header |
| `KanjiPool.RecordPool.OverwriteComment` | Wnn/jserver/jishoop.c:640-645 | a shorter comment overwrites the old one in place |
| `KanjiPool.RecordPool.Forward` | Wnn/jserver/jishoop.c:646-659 | a longer comment goes into a new record the old one forwards to |
| `KanjiPool.FetchFrame` | Wnn/etc/bdic.c:879-911 | what a record says depends on the bytes of its header and its replacement only |
| `RevWords.RecordAdded` | Wnn/jserver/rd_jishoop.c:191-200 | a record behind all others leaves every other word as it was |
| `RevWords.RecordRewritten` | Wnn/jserver/jishoop.c:638-659 | a changed comment changes one word only |
| `RevWords.PoolTrimmed` | Wnn/jserver/rd_jishoop.c:258-261 | trimming the pool on delete cuts into no live word, neither header nor forwarded record |
| `RevWords.DeletedValues` | Wnn/jserver/rd_jishoop.c:251-264 | after a deletion the map from serial to word lacks that serial and is otherwise the same |
| `RevDict.Dictionary.constructor` | Wnn/etc/bdic.c:1040-1130 | an empty dictionary is in order |
| `RevDict.Dictionary.FindDuplicate` | Wnn/jserver/rd_jishoop.c:109-139 | finds a word with the same reading, kanji and part of speech; -1 exactly when there is none |
| `RevDict.Dictionary.NewWord` | Wnn/jserver/rd_jishoop.c:140-201 | the word is entered under the next serial; the dictionary is in order afterwards exactly when the record fits its length byte |
| `RevDict.Dictionary.Recomment` | Wnn/jserver/rd_jishoop.c:122-133 | a word already there gets the new comment and a new record |
| `RevDict.Dictionary.RdWordAdd1` | Wnn/jserver/rd_jishoop.c:50-201 | the map from serial to word gains or updates one serial, and a new word starts with frequency 0; no two words share reading, kanji and part of speech; all invariants hold exactly when the record fits its length byte (or nothing changed) |
| `RevDict.Dictionary.Unlist` | Wnn/jserver/rd_jishoop.c:204-265 | for any word whose record can be read, even one too long for its length byte: it leaves both tables, and serial, pool and counters are cut back |
| `RevDict.Dictionary.RdWordDelete1` | Wnn/jserver/rd_jishoop.c:204-265 | the map loses exactly that serial; counters, tables, links, chains and pool stay in order |
| `RevDict.Dictionary.WordAdd` | Wnn/jserver/jishoop.c:67-81 | which lengths are refused; of those let through, the dictionary stays in order exactly when the word fits a record |
| `RevDict.FitsExactly` | Wnn/jserver/jishoop.c:67-81 | a record fits its length byte exactly when reading, kanji and comment have at most 124 characters together (123 with a comment), although up to 255 are let through |
| `RevDict.Dictionary.WordDelete` | Wnn/jserver/jishoop.c:238-263 | refuses exactly the serials that are no word, else deletes that word only |
| `RevDict.Dictionary.WordCommentSet` | Wnn/jserver/jishoop.c:160-197 | for every serial: the word whose record it points to gets the comment and no other word changes, in order afterwards exactly when the comment fits; nothing changes when the record written over belongs to no word; exactly the word asked for changes if and only if the serial is a word and the comment fits; a forwarding uses up a serial, which has no record; a serial without a record to read is told apart |
| `RevDict.Dictionary.DeadIsSpared` | Wnn/jserver/jishoop.c:634-659 | a record behind the end of the pool, or one that shares no byte with a word, is written over without touching a word |
| `RevDict.Dictionary.LateComment` | Wnn/jserver/jishoop.c:190-197 | a word gets a comment and is deleted, a new one is added: a comment for the deleted serial becomes the new word's |
| `RevDict.CommentOnWrongWord` | Wnn/jserver/jishoop.c:190-197 | that run from an empty dictionary on, for any three words |
| `RevDict.Dictionary.InspectRd` | Wnn/jserver/rd_jishoop.c:267-312 | found exactly when the serial is a word, with its reading |
| `RevDict.Dictionary.AddThenDelete` | Wnn/jserver/rd_jishoop.c:140-264 | adding a new word of any length and deleting the serial it got restores words, frequencies, both tables, links, chains, pool and counters |
| `RevDict.Dictionary.Lookup` | Wnn/jserver/rd_jishoop.c:140-190 | the walk over the links and chains kept here delivers exactly the words whose reading (or kanji), turned round, is a prefix of the input: each once, longest keys first, the newest first under one key |
| `UserChains.WholeGone` | Wnn/jserver/jishoop.c:523-527 | unlinking a node with one serial takes exactly that serial from the union of the intervals |
| `UserChains.EndGone` | Wnn/jserver/jishoop.c:543-552 | an interval shortened at either end loses exactly its first or last serial; the others still lead to their records |
| `UserChains.MiddleGone` | Wnn/jserver/jishoop.c:553-584 | an interval split in two loses exactly the serial between; both halves lead to their records |
| `UserDict.PoolCut` | Wnn/jserver/jishoop.c:534-537 | trimming the pool leaves every other record legible and unchanged |
| `UserDict.UserDictionary.Unlink` | Wnn/jserver/jishoop.c:525-527 | the node leaves its chain and an emptied chain takes its key out of the table, whose links stay right |
| `UserDict.UserDictionary.DeleteWhole` | Wnn/jserver/jishoop.c:523-542 | serial count, pool and body are cut back exactly when the serial is the last, the record ends the pool, the node ends the body; nothing else uses what goes |
| `UserDict.UserDictionary.Split` | Wnn/jserver/jishoop.c:553-584 | the new node is entered behind the old one at the end of the body |
| `UserDict.UserDictionary.WordDelete1` | Wnn/jserver/jishoop.c:486-588 | whatever reading is given: succeeds when the serial stands under it, then exactly that serial is gone, and nothing changes otherwise |
| `UserDict.UserDictionary.WordDelete` | Wnn/jserver/jishoop.c:238-263 | exactly the serial asked for is deleted; every other word keeps reading, part of speech and record; what becomes of serial count, pool and body, by the node the serial stood in |
| `UserDict.UserDictionary.WordCommentSet` | Wnn/jserver/jishoop.c:590-659 | refuses exactly the serials that are no word, whatever the reading buffer holds; else that word gets the comment and no other changes, in order afterwards exactly when the record has room for the address and the new one fits, or nothing is forwarded |
| `UserDict.UserDictionary.InspectUd` | Wnn/jserver/jishosub.c:299-360 | finds a serial exactly when it is a word; reading and record, reached by record lengths, are its own |
| `UserDict.UserDictionary.WalkRecords` | Wnn/jserver/jishoop.c:621-626 | stepping over record lengths from a node's first record reaches the serial's own |
| `UserDict.UserDictionary.FindKey` | Wnn/jserver/jishoop.c:503-509 | the entry of the longest stored prefix, the reading itself when it is stored |
| `ByteOrder.TurnedTwice` | Wnn/etc/revdic.c:54-69 | turning the same fields twice restores every byte |
| `ByteOrder.TurnedThen` | Wnn/etc/revdic.c:54-69 | turning disjoint fields in any order is turning all of them |
| `ByteOrder.RevIfShort` | Wnn/etc/revdic.c:225-226 | the value returned is the one read before or after the swap, as the order of the data demands |
| `ByteOrder.RevWChar` | Wnn/etc/revdic.c:341-352 | every character of the row is turned, nothing else |
| `RevDic.RevSdNode` | Wnn/etc/revdic.c:228-279 | exactly the typed fields of one node are turned |
| `RevDic.TravelNextNodes` | Wnn/etc/revdic.c:182-223 | exactly the fields below the node are turned |
| `RevDic.RevSdHontai0` | Wnn/etc/revdic.c:156-172 | children first or node first, exactly the typed fields of the tree are turned, every byte between fields stays, and the tree can then be read in the other order |
| `RevDic.NodeOffsets` | Wnn/etc/revdic.c:228-279 | at which offsets the fields stand that a tree reads |
| `RevDic.ReadsTurned` | Wnn/etc/revdic.c:156-279 | a tree that reads in one byte order reads, turned, in the other |
| `RevDic.ThereAndBack` | Wnn/etc/revdic.c:156-279 | reversing in one mode and then in the other is the identity on the buffer, whichever comes first |
| `RevRecords.RevUdRecord` | Wnn/etc/revdic.c:84-111 | one record is turned and the next found, whether its length is read before or after the swap |
| `RevRecords.RecordTurned` | Wnn/etc/revdic.c:84-111 | next, serial, kanjipter, kosuu, length and every character of a turned record read in the other order as they read before |
| `RevRecords.RevUdHontai` | Wnn/etc/revdic.c:72-112 | whatever records the body reads in one order it reads in the other afterwards, field by field and character by character, and no byte outside the records changes |
| `RevRecords.TiledReads` | Wnn/etc/revdic.c:72-112 | every body that can be walked by its lengths reads as records, each behind the one before at the next multiple of four |
| `RevRecords.UdThereAndBack` | Wnn/etc/revdic.c:72-112 | reversing in one mode and then in the other is the identity on the buffer |
| `RevRecords.RevKanji` | Wnn/etc/revdic.c:326-353 | in every record that the walk over lengths meets, each two bytes behind the second that lie in the record change places; lengths, states and all other bytes stay |
| `RevRecords.PoolTurned` | Wnn/etc/revdic.c:326-353 | the same, record by record |
| `RevRecords.PoolThereAndBack` | Wnn/etc/revdic.c:326-353 | turning the pool twice restores it |
| `StaticTrie.GetFstSerial` | Wnn/jserver/jishosub.c:263-296 | the serial that the numbering of a subtree starts with |
| `StaticTrie.FindKid` | Wnn/jserver/jishosub.c:216-245 | the one child whose serials include the one asked for |
| `StaticTrie.InWords` | Wnn/jserver/jishosub.c:165-231 | the node's own word, with the character that ends it, or the child to go to |
| `StaticTrie.Descend` | Wnn/jserver/jishosub.c:161-261 | the loop ends with the word of that serial, its reading spelled on the way |
| `StaticTrie.InspectSd` | Wnn/jserver/jishosub.c:121-261 | the lookup inverts the numbering: the word at that place in the list of all words, own words before children, children in table order |
| `StaticTrie.InspectForeign` | Wnn/jserver/jishosub.c:121-261 | the same after the body was turned from the other byte order |
| `StaticTrie.WordFiled` | Wnn/jserver/jishosub.c:121-261 | the reading of a word is spelled by the labels on the way to it, and its number in its node counts its record among the node's |
| `StaticTrie.FetchWord` | Wnn/jserver/jishosub.c:121-261 | from the serial to the reading that the tree spells and the record that was filed for it |
| `StrokeTrie.StrokeIndex.CharOf` | Wnn/jserver/b_index.c:224-230 | the first-son descent ends at a word, whose character at this level is the node's label |
| `StrokeTrie.StrokeIndex.Search` | Wnn/jserver/b_index.c:215-238 | the first brother whose label is not smaller, and the one before it |
| `StrokeTrie.StrokeIndex.CreatBNode` | Wnn/jserver/b_index.c:210-295 | the son for that character, made in its place among its brothers if it is missing |
| `StrokeTrie.NodeAdded` | Wnn/jserver/b_index.c:240-292 | a node linked in between keeps brothers strictly ascending and every link exact |
| `StrokeTrie.StrokeIndex.BIndexAdd` | Wnn/jserver/b_index.c:103-120 | one node is made for each prefix of the reading that has none; the reading leads to its last serial and no other path changes, exactly when a short can hold the serial and the number of nodes; beyond that the nodes are no trie, whatever they are taken for |
| `StrokeTrie.ShortTrie` | Wnn/jserver/b_index.c:306-321 | every node but the root is linked to, so that a trie whose links fit a short has at most 0x8000 nodes |
| `StrokeTrie.StrokeIndex.AddNewWord` | Wnn/jserver/rd_jishoop.c:163-166 | entered before its record is stored, the word is found when the record is there, and all other words stay found, exactly when the nodes there are and the prefixes that need one are fewer than 0x8000 |
| `StrokeTrie.ShortCuts` | Wnn/jserver/b_index.c:103-120 | which serials a short can hold, with one it cannot |
| `StrokeTrie.StrokeIndex.EnterKeys` | Wnn/jserver/b_index.c:89-96 | every reading of the key table leads to the head of its chain; there is one node for each different prefix, and at most 0x8000 are asked for |
| `StrokeTrie.CreateBIndex` | Wnn/jserver/b_index.c:61-98 | an index of a whole key table with fewer than 0x8000 different prefixes: exactly its readings are found, each under the last head entered for it; the number of prefixes is returned |
| `StrokeTrie.TooManyPrefixes` | Wnn/jserver/b_index.c:89-120 | no trie with links and serials that fit a short holds keys with 0x8000 prefixes or more, or a serial from 0x8000 on |
| `StrokeTrie.StrokeIndex.Lookup` | Wnn/jserver/b_index.c:103-120 | following a reading from the root reaches the last serial entered for it and no other path ends in one; with question marks in it, exactly the readings that match, each once and in their order |
| `BlockExchange.Exchange` | Wnn/etc/getopt.c:309-387 | ends, and leaves the two blocks exchanged, each in its order, the rest untouched |
| `BlockExchange.SwapBlocks` | Wnn/etc/getopt.c:328-360 | two blocks of the same length change places |
| `OptionDecode.FindLong` | Wnn/etc/getopt.c:651-690 | an exact name, or an abbreviation of exactly one, or none, or ambiguous |
| `OptionDecode.MatchIsUnique` | Wnn/etc/getopt.c:651-690 | there is only one way to match a name |
| `OptionDecode.StepTakes` | Wnn/etc/getopt.c:639-969 | what a step takes is the rest of its element and the next one where that becomes the argument; optind moves by exactly that, and by one more exactly behind an ambiguous -W name |
| `OptionDecode.SilenceChangesOutcome` | Wnn/etc/getopt.c:702-719 | opterr decides the outcome of a step exactly when a long option that takes no argument is given one; behind -W it never does (lines 892-899) |
| `OptionDecode.SilenceAccepts` | Wnn/etc/getopt.c:702-719 | --foo=x where foo takes no argument: refused with messages on, accepted as foo when they are silenced |
| `OptionDecode.FlagChangesStep` | Wnn/etc/getopt.c:394-424 | exactly when an ordering flag in front of the option string makes no difference to a step |
| `OptionMeaning.LongWithValue` | Wnn/etc/getopt.c:692-746 | --name=value: the value behind the = is the argument, and what is returned; refused or dropped where the option takes none |
| `OptionMeaning.LongAlone` | Wnn/etc/getopt.c:692-746 | --name: the next element is the argument exactly where one is required; what is reported when there is none |
| `OptionMeaning.LongUnknown` | Wnn/etc/getopt.c:682-690 | a name of no option or of several is reported |
| `OptionMeaning.KindSpelled` | Wnn/etc/getopt.c:775-967 | what one or two colons behind a character in the option string, or W; mean |
| `OptionMeaning.KindUnknown` | Wnn/etc/getopt.c:784-797 | a character is no option exactly when the option string lacks it, or it is the colon |
| `OptionMeaning.CharAlone` | Wnn/etc/getopt.c:775-800 | a character without argument, known or not: what is returned, and that the element goes on |
| `OptionMeaning.CharWithArgument` | Wnn/etc/getopt.c:922-967 | the argument of a character: the rest of its element, the next element if one is required, none if it is optional; what is reported when it is missing |
| `OptionMeaning.TextOfW` | Wnn/etc/getopt.c:802-846 | where -W finds its text |
| `OptionMeaning.NamedWithValue` | Wnn/etc/getopt.c:877-920 | -W name=value: a needless value is refused whatever opterr says |
| `OptionMeaning.NamedAlone` | Wnn/etc/getopt.c:877-920 | -W name: its argument, or optarg left at the name |
| `OptionMeaning.NamedUnknown` | Wnn/etc/getopt.c:877-920 | -W with a name that is no option: left to the application |
| `ScanMeaning.ScanIsMeant` | Wnn/etc/getopt.c:516-970 | a scan that moves optind as the code does and reads a kept flag is the scan that takes what belongs to each option and drops the flag, exactly when no step meets an ambiguous -W name, nor the flag where it makes a difference |
| `ScanMeaning.NothingLost` | Wnn/etc/getopt.c:470-476 | options moved and operands left interleave to the vector: each part keeps its order, and together they are all elements; only the permuting order moves anything |
| `ScanMeaning.MeantNeverOverruns` | Wnn/etc/getopt.c:866-874 | taking what belongs to each option never claims more than there is |
| `ScanMeaning.NeverDisturbed` | Wnn/etc/getopt.c:866-874 | without "W;" and without an ordering flag nothing disturbs a scan |
| `ScanMeaning.AmbiguousNameSwallows` | Wnn/etc/getopt.c:866-874 | ["-Wa", "file"] with two names in a: the operand is passed over as if it were an argument; ["-Wa"]: optind ends behind the vector |
| `ScanMeaning.FlagTakenForOption` | Wnn/etc/getopt.c:408-424 | behind a leading +, the second of two unknown -+ is taken for an option |
| `GetoptScan.Scanner.Initialize` | Wnn/etc/getopt.c:394-458 | the ordering, and the option string without its flag |
| `GetoptScan.Scanner.Regroup` | Wnn/etc/getopt.c:558-566 | the options moved over stand in front of the operands skipped |
| `GetoptScan.Scanner.SkipOperands` | Wnn/etc/getopt.c:558-574 | operands are skipped up to the next option element |
| `GetoptScan.Scanner.Terminator` | Wnn/etc/getopt.c:581-592 | "--" is moved over like an option, all behind it skipped |
| `GetoptScan.Scanner.DecodeElement` | Wnn/etc/getopt.c:639-772 | one decoding step does what the step function says |
| `GetoptScan.Scanner.TakeLong` | Wnn/etc/getopt.c:690-746 | a found long option takes its argument from the element or the next one |
| `GetoptScan.Scanner.DecodeShortOption` | Wnn/etc/getopt.c:775-969 | one option character, with or without argument |
| `GetoptScan.Scanner.TakeW` | Wnn/etc/getopt.c:840-920 | -W with a long name |
| `GetoptScan.Scanner.Advance` | Wnn/etc/getopt.c:547-622 | on to the next option element, or the finished partition |
| `GetoptScan.Scanner.GetoptInternal` | Wnn/etc/getopt.c:516-970 | one call: the markers stay in order between calls, the vector stays on track to its partition, and something is used up |
| `GetoptScan.ScanAll` | Wnn/etc/getopt.c:516-970 | repeated calls end, in every ordering: they rearrange the vector into two parts around optind, each in its old order, and return the options and arguments as the scan of the code does, and that is the meant scan - program name, options with their arguments and "--", operands - exactly when the scan is undisturbed |
| `ArgumentVector.VectorScanned` | Wnn/etc/getopt.c:470-510 | options and operands spelled out as a vector are scanned one by one: what each call gives back, and which elements are passed or left |
| `ArgumentVector.ScanSpelled` | Wnn/etc/getopt.c:516-970 | for any options and operands, spelled as a user would in any of the three orderings, the calls give back exactly these options with their arguments, optind moving with each, and then the operands follow, in order |
| `FileServer.Server.FileRead` | Wnn/jserver/do_filecom.c:750-795 | when it fails; what changes; counts stay the numbers of holders; a loaded file is left without a holder exactly when it was newly read for an environment without a free slot |
| `FileServer.FileWithoutHolder` | Wnn/jserver/do_filecom.c:750-795 | a run of calls that fills the 60 slots and then leaves a file loaded that nobody holds |
| `FileServer.Server.FileAlreadyRead` | Wnn/jserver/do_filecom.c:797-813 | a loaded file is shared; refused exactly when it is new to a full environment |
| `FileServer.Server.AddFidToEnv` | Wnn/jserver/do_filecom.c:967-978 | fails exactly when no slot is free |
| `FileServer.Server.TidyCounts` | Wnn/jserver/do_filecom.c:951-991 | a file's count is the number of environments that hold it, -1 exactly when none does |
| `FileServer.Server.FileDiscard` | Wnn/jserver/do_filecom.c:334-350 | refused exactly for a file that the environment does not hold; else the file leaves the environment, is unloaded with its last holder, and its first use goes; the entries stay in order exactly when at most one of them used it as its frequency file |
| `FileServer.SharedFrequencyFile` | Wnn/jserver/do_filecom.c:334-350 | a run of calls after which two entries share a frequency file; its discard leaves one of them listed with a file that is neither held nor loaded |
| `FileServer.Server.UsedDicFuzokuDelete` | Wnn/jserver/do_dic_env.c:464-498 | the file of attached words, or else the first entry that uses the file, is given up, and nothing else |
| `FileServer.Server.DicAdd` | Wnn/jserver/do_dic_env.c:51-206 | when exactly it is refused; else the entry that has this body already gets the frequency file, or a free entry is made and listed; no environment lists a body twice, every listed body and frequency file is held |
| `FileServer.Server.ChkDic` | Wnn/jserver/do_dic_env.c:226-240 | the environment's entry with this body, -1 exactly when it has none |
| `FileServer.Server.DicDelete` | Wnn/jserver/do_dic_env.c:284-321 | exactly a listed entry can be deleted; it is listed nowhere afterwards |
| `FileServer.Server.DeleteEntry` | Wnn/jserver/do_dic_env.c:307-321 | the list closes up over the deleted entry |
| `FileServer.Server.FuzokugoSet` | Wnn/jserver/do_dic_env.c:408-441 | only a held file of that type is set |
| `FileServer.Server.Disconnect` | Wnn/jserver/do_dic_env.c:324-339 | all entries and files of a disconnected environment go, each file with one holder less; no other entry, environment or count changes |
| `FileServer.Server.DelAllFileInEnv` | Wnn/jserver/do_filecom.c:352-369 | every file loses this holder and its last holder unloads it; every other count stays |
| `Ownership.EntryGone` | Wnn/jserver/do_dic_env.c:307-321 | every other environment and entry is untouched; what the environment itself then lists decides |
| `Ownership.DiscardedListed` | Wnn/jserver/do_dic_env.c:477-488 | the environment is in order after a discard exactly when no second entry used the file |
| `Ownership.FileGivenUp` | Wnn/jserver/do_filecom.c:980-991 | one slot and one count less keep all counts right |
| `FreqTables.Tables.Attach` | Wnn/jserver/do_dic_env.c:157-197 | after attaching, all tables have their dictionary's size exactly when no dictionary of another size uses the file; the attached table keeps its frequencies, new serials have 0 |
| `FreqTables.Tables.Justify` | Wnn/jserver/jishoop.c:748-782 | the table gets the dictionary's size; known frequencies stay, new ones are 0 |
| `FreqTables.Tables.WordAdd` | Wnn/jserver/jishoop.c:115-153 | sizes stay equal; the word's frequency is set in the entry's own table, 0 in the dictionary's others, and no other frequency changes |
| `FreqTables.Tables.WordDelete` | Wnn/jserver/jishoop.c:264-284 | the dictionary's tables follow whether it gives up its last serial or not; frequencies and all other tables stay |
| `FreqTables.Tables.CommentSet` | Wnn/jserver/jishoop.c:660-680 | sizes stay equal exactly when no serial is used up or no table is attached |
| `FreqTables.CommentOutOfStep` | Wnn/jserver/jishoop.c:660-680 | a run of calls after which a table is one serial short |
| `FreqTables.TwoSizes` | Wnn/jserver/do_dic_env.c:157-197 | a run of calls that attaches one file to dictionaries of two sizes |
| `FreqTables.GrownInStep` | Wnn/jserver/jishoop.c:137-153 | why the sizes are equal after an addition |
| `FreqTables.SpentOutOfStep` | Wnn/jserver/jishoop.c:665-679 | using up a serial puts exactly the attached tables out of step |
| `ClientBuffer.Client.WriteToClient` | Xwnmo/xwnmo/do_socket.c:178-207 | bytes on the wire and bytes buffered together grow by what was written, in order, and only full buffers are sent; after an error the wire has a prefix |
| `ClientBuffer.Client.Writen` | Xwnmo/xwnmo/do_socket.c:135-154 | all bytes are sent in however many pieces, or a prefix and the connection closes |
| `ClientBuffer.Client.SendFlush` | Xwnmo/xwnmo/do_socket.c:156-170 | nothing stays buffered |
| `ClientBuffer.Client.ReadFromClient` | Xwnmo/xwnmo/do_socket.c:209-246 | delivers the next bytes of the stream however they arrive; what is left over stays at rp..rp+rc |
| `ClientBuffer.Client.SendAll` | Xwnmo/xwnmo/do_socket.c:135-207 | a whole conversation reaches the wire as the messages one after another |

## Left out

- The escape sequences that kanji records may hold (`kanji_esc_str`): texts are stored and read as they are.
- Reallocation: arrays have their capacity from the start, and methods say what room they need where the code reallocates.
- Pointers are offsets; the host stores words low byte first, and offsets are aligned as addresses are.
- word_add1 for user dictionaries (Wnn/jserver/jishoop.c:289-405): its duplicate check compares a buffer that is never set, and its copy of the reading's tail takes a constant two characters. A user dictionary is therefore taken as it was read from its file.
- UserDict.UserDictionary.Split: nodes are kept by offset, each with its whole reading; that a node's bytes hold it (packed in the table's first four characters and the node's rest) is not modelled.
- UserDict.UserDictionary.FindKey: the comparisons of packed readings (Strcmpud, Substrud) are taken as comparisons of the readings they pack.
- Reverse dictionaries start empty: files written by other tools (Wnn/jutil) are not modelled, and neither are the second kanji field and the frequency bytes of a word.
- Adding a word to a dictionary with a stroke index: rd_word_add1 enters the reading once for a new reading and once for a new kanji key; `StrokeTrie.StrokeIndex.AddNewWord` is one such call, not tied to the tables.
- StrokeTrie.StrokeIndex.EnterKeys: asks that a `short` can hold every node and serial; what the source's search does behind it, where it leaves its arrays, is not modelled.
- RevDict.Dictionary.WordCommentSet: nothing is said of a serial without a record to read, and only that the shape is kept when the bytes written over belong to a part of a word's record.
- Deleting from the stroke index (Wnn/jserver/b_index.c:138-198, 325-345): the parent's first-son link is not updated there and freed nodes are never given back as meant.
- RevDic.RevSdHontai0: trees with an absent child in a node without entries are excluded; the code takes the pointer 0 for the body's first node there and does not end.
- The header areas, part-of-speech lists and key tables that revdic.c turns field by field in plain loops.
- StaticTrie.InspectSd: the branch for a serial that the tree does not hold is dead when maxserial is the number of words, and is not modelled.
- "W;" in the option string without long options: on a -W the code reads through a null pointer, and `OptionDecode.Demands` asks for long options whether or not a -W comes.
- ArgumentVector.ScanSpelled: option characters under getopt_long_only, -W and missing or needless arguments are described option by option (`OptionMeaning`), not in whole vectors.
- A caller that moves optind between calls; the environment's list of non-option arguments (_getopt_nonoption_flags).
- ClientBuffer.Client.WriteToClient: one connection; the buffers are shared by all clients, and switching between them is left to the caller.
- Passwords, file types other than the three the tables distinguish, file names, dirty bits, and reading and writing of files; reading succeeds or fails as a parameter says.
- Environments that several clients share, and sticky ones: an environment is disconnected when nobody uses it any longer.
- Pinyin and SiSheng variants, conversion, history and the X11 front end.
