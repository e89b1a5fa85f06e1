# The data structures of yaVDR's web frontend, verified

This project models five parts of yavdrweb-ng and proves what they promise.

* **The HDF data set** (`neo_hdf.c`), which holds yaVDR's configuration: a mutable tree of named
  nodes. Each level is a singly linked list with a tail pointer, a hash index once the level has
  grown, and a cache of the last search. There are symbolic links, attributes, removal, sorting,
  copying, a printer with three formats and a recursive line reader.
* **The file-name matcher** `wildcmp` (`get_file_content.ecpp`).
* **The channel list**: reading, writing and renumbering channels.conf (`vdr_channels.js`), and a
  second reader of the same lines that works with offsets (`get_svdrp_response.ecpp`).
* **The modeline table** (`get_x11.ecpp`).
* **The template expander** `Gettext.strargs` (`gettext.js`).

## How the data set is modelled

`HdfTree` has the plain ordered tree, addressed by paths. `HdfSpec`, `HdfRemove` and `HdfCopy` give
every operation its meaning on that tree, links included. A number called `fuel` bounds the nesting
of links in these definitions; a result that does not depend on it is what the C code returns, and
running out of it for every bound is what the C code does when links lead round in circles.
`HdfLinks` shows that more fuel never changes a result, and `HdfTermination` that there is enough
fuel exactly when a rank falls along the links.

`HdfLevel` has the node with the fields of the C struct, and the pointer loops over one level.
`HdfStore` has the whole data set: `Valid` says that each list, tail pointer, index and cache is
right and that the nodes show the tree `T`. Every operation is a method on these nodes, proved to
keep `Valid` and to change `T` as the plain operation does (`HdfStore`, `HdfSort`, `HdfStoreCopy`,
`HdfAttrList`, `HdfReader`, `HdfPrinter`). What a caller relies on is then proved about the plain
operations (`HdfLaws`, `HdfBase`, `HdfTargets`, `HdfPlain`, `HdfLookup`, `HdfKeepsSettling`, `HdfShape`,
`HdfReplay`, `HdfCopyWithin`, `HdfCopyUpwards`, `HdfRoundTrip`, `HdfRoundTripDotted`, `HdfNormal`,
`HdfReadPlain`), and carried back to the nodes in `HdfRuns`, `HdfStoreCopyWithin`,
`HdfRemoveThenSet` and `HdfFiles`.

The text side has three layers: `HdfLex`, `HdfLine`, `HdfHeredoc` and `HdfRead` say what each piece
of text means, `HdfScanner` has the loops that read it, and `HdfDump` says what is printed.
`HdfHandWritten` and `HdfLayout` say what lines and texts mean and look like without naming those
definitions.

Where the code does something its own text does not say, the model follows the code:

* A bare attribute key is meant to read as `1`, but its length is never set, so it reads as the
  empty value (`yavdrweb-ng/neo_hdf.c:1495-1509`).
* `_merge_attr` drops the rest of the list it merges when its first key is new
  (`yavdrweb-ng/neo_hdf.c:537-543`); `HdfAttrs.MergeKeepsAll` says exactly when nothing is lost.
* An assignment can overwrite a link that it is itself led through, and is then not read back;
  `HdfLookup.SetThenWalk` says when, `HdfLookup.SelfOverwrittenLink` gives a data set.
* Overwriting a link that has links below it can uncover a circle of links
  (`HdfKeepsSettling.UncoveredCircle`); `HdfShape.SettlingKeptIff` says exactly when it cannot.
* An assignment resolves the links it meets from the node it was called on, a lookup resolves them
  from the top (`yavdrweb-ng/neo_hdf.c:782`). So an assignment from an inner node, as the reader makes
  them inside braces, can go round in circles where every lookup ends
  (`HdfTermination.SettledButAborted`); `HdfTargets.ReturnsIffSettles` says exactly when it returns.
* The modeline table tests `!...["isedid"]` to let an EDID modeline replace another one
  (`yavdrweb-ng/get_x11.ecpp:301` and `:619`). JsonCpp's `!` asks for null, and the member is always a
  boolean there, so nothing is ever replaced; `Modelines.AllHeldAsIntended` says when that shows.
* A link that the empty name is set on stays a link and leads elsewhere
  (`yavdrweb-ng/neo_hdf.c:584-626`); `HdfShape.AimingAnewIff` says when that can do harm.
* A copy within one data set into the source itself never returns; `HdfCopyWithin.ReturnsIffOutside`.
* A copy to a node above its source can add to the source while it is read, and then copies what it
  has added (`HdfCopyUpwards.RisesFurther`); `HdfCopyUpwards.UpwardsIsPlain` says when it does not.
* A value with a line that begins with `EOM` and a blank is printed between `EOM` lines and cut short
  when it is read (`yavdrweb-ng/neo_hdf.c:1194` and `:1710`); `HdfHeredoc.ReadBodyInverse` says exactly
  which values are.
* With more than one blank in front of its name, the text of a modeline begins inside the name
  (`WrittenModelines.WrittenRead`).
* The room that the multi-line buffer keeps ahead suffices for terminators of up to 126 characters,
  and not beyond (`yavdrweb-ng/neo_hdf.c:1690-1710`).
* The comment in `strargs` says that a stray percent sign is removed; the code keeps it
  (`yavdrweb-ng/static/javascripts/gettext.js:1111-1114`).
* The reader of channels.conf lets every `@` number replace the counter, even one that is lower or
  not a number; the renumbering only lets it rise.

Parameters stand for what is not in the repository or not looked into: the threshold for hashing,
the comparison function of a sort, and the refresh rate computed in floating point. A sort is any
ordered permutation. `neos_strip` takes white space off both ends, `repr_string_alloc`
escapes as `HdfLex.Escape` does, a hash is a map from names to nodes, and `operator!` of a JsonCpp
value asks whether the value is null, as that library documents it; these are assumptions about code
outside the repository.

## Model

| member | source | states |
|---|---|---|
| `HdfLevel.Hdf.FindChild` | yavdrweb-ng/neo_hdf.c:238-259 | the search of a lookup, by hash or along the list, finds the child of that name exactly when there is one |
| `HdfLevel.Hdf.Search` | yavdrweb-ng/neo_hdf.c:645-690 | the search of an assignment: the cached pair is believed only when it still fits, and then it is the node a scan would find; a miss reports the tail to append behind and, without a hash, the length of the level |
| `HdfLevel.Hdf.HashLevel` | yavdrweb-ng/neo_hdf.c:554-570 | the new index maps exactly the names of the level to its nodes |
| `HdfLevel.Hdf.Append` | yavdrweb-ng/neo_hdf.c:712-730 | the new node becomes the last of the level, list, tail pointer, names and index stay right, and an index exists afterwards exactly if there was one or the level has grown past the threshold |
| `HdfLevel.Hdf.Unlink` | yavdrweb-ng/neo_hdf.c:977-994 | one node leaves the list and the index; list, tail pointer, names and index of the rest stay right and the node's own successor is cleared |
| `HdfLevel.Hdf.Relink` | yavdrweb-ng/neo_hdf.c:905-921 | rewriting the pointers along any permutation of the level gives exactly that list, with the right first child, tail and end |
| `HdfStore.HdfStore.constructor` | yavdrweb-ng/neo_hdf.c:165-185 | a new data set is valid and stands for the tree with nothing but the root |
| `HdfStore.HdfStore.SearchAt` | yavdrweb-ng/neo_hdf.c:645-690 | in a valid data set the search finds a node exactly when the tree has one at that path, and the caches stay usable |
| `HdfStore.HdfStore.Extend` | yavdrweb-ng/neo_hdf.c:691-730 | a new child, linked in behind the tail, keeps every invariant of every level and changes the tree by exactly that child |
| `HdfStore.HdfStore.SetValue` | yavdrweb-ng/neo_hdf.c:572-802 | the assignment loop on the linked nodes keeps every invariant, removes no node, and leaves exactly the tree, the error and the node that the assignment on the plain tree gives, for every name, through any links |
| `HdfStore.HdfStore.Walk` | yavdrweb-ng/neo_hdf.c:196-291 | the lookup loop on the linked nodes, with links resolved from the top, returns the node at the path that the lookup on the plain tree finds, or none |
| `HdfStore.HdfStore.RemoveTree` | yavdrweb-ng/neo_hdf.c:926-998 | removal keeps every invariant and leaves exactly the tree without that subtree; a missing name changes nothing |
| `HdfSort.SortObj` | yavdrweb-ng/neo_hdf.c:891-924 | the level becomes a permutation of itself that is ordered, however much of the nodes and of what is below them the comparison looks at; the tree changes in nothing but the order of that level, and lists, tail pointers, indexes and stale caches all stay usable |
| `HdfSort.ItemsArrange` | yavdrweb-ng/neo_hdf.c:902-921 | sorted nodes are sorted children: the order of the list that was loaded is an allowed order of the level in the tree |
| `HdfSort.ReorderingOf` | yavdrweb-ng/neo_hdf.c:902-921 | any permutation of the nodes of a level is a duplicate-free reordering of exactly the names of that level |
| `HdfStoreCopy.CopyNodes` | yavdrweb-ng/neo_hdf.c:1034-1058 | the recursive copy, from another data set or from beside the destination in the same one, keeps every invariant, leaves the source as it is and gives exactly the tree that copying a fixed source on the plain tree gives |
| `HdfStoreCopy.CopyTree` | yavdrweb-ng/neo_hdf.c:1060-1071 | the whole copy, from another data set or from beside the destination: looked up through links, created when missing, then filled; same result as on the plain tree, and making the destination does not touch the source |
| `HdfStoreCopyWithin.CopyLive` | yavdrweb-ng/neo_hdf.c:1034-1058 | the recursive copy between any two nodes of one data set, whose loop reads a list that may grow meanwhile, keeps every invariant and gives exactly the tree that this loop gives on the plain tree |
| `HdfStoreCopyWithin.CopyTreeWithin` | yavdrweb-ng/neo_hdf.c:1060-1071 | the whole copy within one data set comes to an end for every destination that is not inside the source |
| `HdfCopyWithin.ReturnsIffOutside` | yavdrweb-ng/neo_hdf.c:1034-1058 | a copy within one data set comes to an end exactly if the destination is not strictly inside the source |
| `HdfCopyWithin.BesideIsPlain` | yavdrweb-ng/neo_hdf.c:1034-1058 | beside its source it is the copy of a source that does not change |
| `HdfCopyWithin.LiveKeeps` | yavdrweb-ng/neo_hdf.c:1034-1058 | a copy within one data set removes nothing, only lengthens lists at their ends and changes nothing that is not at or below the destination |
| `HdfCopyUpwards.Arrives` | yavdrweb-ng/neo_hdf.c:1034-1058 | however source and destination lie to each other, every path below the source is there below the destination when the copy returns |
| `HdfCopyUpwards.AllTakenOver` | yavdrweb-ng/neo_hdf.c:1039-1055 | and every child the source has then, those included that the copy itself has added to it, has a namesake at the destination |
| `HdfCopyUpwards.UpwardsIsPlain` | yavdrweb-ng/neo_hdf.c:1034-1058 | to a node above its source it is the copy of a source that does not change, unless the source has something under the path that leads to it from there |
| `HdfCopyUpwards.OntoItselfIsPlain` | yavdrweb-ng/neo_hdf.c:1034-1058 | a copy of a node to itself comes to an end and is that of another data set with the same children |
| `HdfCopyUpwards.RisesFurther` | yavdrweb-ng/neo_hdf.c:1039-1055 | a concrete data set where a child that is copied into the source is copied again, one level up |
| `HdfStoreCopy.AlwaysWellFormed` | yavdrweb-ng/neo_hdf.c:56-106 | every tree that a valid data set stands for has distinct, non-empty names without dots in every level |
| `HdfStoreCopy.EveryPathHasANode` | yavdrweb-ng/neo_hdf.c:196-291 | every path of the tree has a node in the data set |
| `HdfRuns.FindBothWays` | yavdrweb-ng/neo_hdf.c:645-690 | in every valid data set the cached or hashed search and the linear scan return the same node for every name, and none exactly when the tree has none |
| `HdfRuns.Run` | yavdrweb-ng/neo_hdf.c:572-1071 | any run of assignments, removals, sorts and copies within the data set or from a second one, each from any node, keeps all invariants at every step, and the tree goes through steps that each operation allows |
| `HdfRuns.RunOnNew` | yavdrweb-ng/neo_hdf.c:572-1071 | on a new data set every run that makes no link and is called with nodes that are there comes to an end, and afterwards there is under each path exactly what replaying the list of operations gives: no node, or a node with or without that value |
| `HdfReplay.OneStep` | yavdrweb-ng/neo_hdf.c:310-319 | one operation, whichever it is and from any node, changes what is under every path (no node, a node without a value, or a value) exactly as the operation's own description says, and keeps the data set free of links |
| `HdfReplay.RunValues` | yavdrweb-ng/neo_hdf.c:310-319 | for every run on link-free data, which nodes there are and the value of each is read off the list of operations |
| `HdfReplay.RunLookups` | yavdrweb-ng/neo_hdf.c:310-319 | the same for lookups of every name from every node that is still there: found or not, and with which value |
| `HdfReplay.SoundRunReturns` | yavdrweb-ng/neo_hdf.c:196-291 | without links every run that is called with nodes that are there comes to an end, whatever the sorts do with equal elements |
| `HdfReplay.RefusedIsMissing` | yavdrweb-ng/neo_hdf.c:579-582 | a name with an empty component leads nowhere in link-free data |
| `HdfRemove.RemoveTreeExactly` | yavdrweb-ng/neo_hdf.c:926-998 | removing a name takes out exactly what lies at or below the path it spells: the parent keeps its other children in order, everything else keeps data and children, and a name that leads nowhere changes nothing |
| `HdfLookup.RemovedThenSet` | yavdrweb-ng/neo_hdf.c:712-716 | after a removal and then an assignment, from any node and through any links, that makes a sibling: the parent has its other children in their order and the new one last, and every other place is as it was or gone with the removed subtree |
| `HdfRemoveThenSet.RemoveThenSet` | yavdrweb-ng/neo_hdf.c:926-998 | the same on the nodes, hashed or not: the parent's list is the old one without the removed node, with the new node at its end |
| `HdfRemove.ReorderShallow` | yavdrweb-ng/neo_hdf.c:891-924 | reordering a level changes the order of that level's names and nothing else anywhere |
| `HdfCopy.CopyAppends` | yavdrweb-ng/neo_hdf.c:1034-1058 | copying below a node with none of these names appends the source in order, with its values and attributes, each link turned into a plain value |
| `HdfCopy.FlattenedLinkFree` | yavdrweb-ng/neo_hdf.c:1045 | a link-free source is copied unchanged |
| `HdfLookup.CopyToMissing` | yavdrweb-ng/neo_hdf.c:1060-1071 | a copy to a name that no lookup finds, in any data set: a new or childless place gets the source in order, links turned into plain values; a link that led nowhere loses value and link flag, keeps its attributes and its children, and the source is laid over those; elsewhere only the nodes on the way are made |
| `HdfLookup.CopiedThere` | yavdrweb-ng/neo_hdf.c:1045 | where the source has a node the copy has its value, is no link even if the source is one, and has taken its attributes |
| `HdfCopy.CopyOverlays` | yavdrweb-ng/neo_hdf.c:1034-1071 | copying onto anything: exactly what every path shows afterwards, with value, merged attributes and the names of each level in order, those that are new coming last in the source's order |
| `HdfCopy.SetKeeps` | yavdrweb-ng/neo_hdf.c:572-802 | an assignment removes no node, not even one that fails or goes through links |
| `HdfLaws.SetEffect` | yavdrweb-ng/neo_hdf.c:572-802 | the value and link flag an assignment leaves at the node it ends at, with its old children; every other node keeps its data, and a refused name only ever adds empty nodes |
| `HdfLaws.SetExactly` | yavdrweb-ng/neo_hdf.c:572-802 | exactly what every path shows after one assignment through any links: data, merged attributes, and the names of each level in order; only the last node of the way that was there gains a name, at its end |
| `HdfLaws.SetAnyExactly` | yavdrweb-ng/neo_hdf.c:584-800 | the same for every name, the empty one included: the node it ends at takes the value and the attributes as they are given to a node, keeps its children, and keeps its link flag under the empty name |
| `HdfBase.SetInside` | yavdrweb-ng/neo_hdf.c:782 | an assignment from any node is the assignment to what is below it, put back there, so links met on the way are resolved from that node and not from the top |
| `HdfTargets.AssignmentLands` | yavdrweb-ng/neo_hdf.c:572-802 | where an assignment through links ends, from any node and for every dotted name: a lookup of all but the last component, with links resolved from that node, finds the parent; where it finds none, the target is new |
| `HdfTargets.ReturnsIffSettles` | yavdrweb-ng/neo_hdf.c:773-785 | such an assignment comes to an end exactly if that lookup does, in data where no component and no link target is empty |
| `HdfPlain.PlainWalk` | yavdrweb-ng/neo_hdf.c:196-291 | without links a lookup finds exactly the node at the path that the name spells |
| `HdfPlain.PlainTarget` | yavdrweb-ng/neo_hdf.c:572-802 | without links an assignment ends at the path its name spells if no component is empty, and is refused otherwise; it never fails to return |
| `HdfPlain.SetThenGet` | yavdrweb-ng/neo_hdf.c:310-319 | without links: the name just set reads as the new value, every name that leads elsewhere reads as before, from any node, and a refused name changes no reading |
| `HdfPlain.NewAncestorsAreEmpty` | yavdrweb-ng/neo_hdf.c:691-704 | the nodes made on the way to the target have no value |
| `HdfLinks.StepsMono` | yavdrweb-ng/neo_hdf.c:196-291 | a lookup that ends with some bound on the nesting of links ends the same way with every larger one |
| `HdfLinks.SetStepsMono` | yavdrweb-ng/neo_hdf.c:572-802 | the same for assignments |
| `HdfLinks.StepsJoined` | yavdrweb-ng/neo_hdf.c:227-287 | looking up a joined name is looking up its first half and going on from there |
| `HdfLookup.LinkStandsForTarget` | yavdrweb-ng/neo_hdf.c:262-287 | a name that goes through a link leads where the link's target with the rest of the name leads, and the link itself where its target does |
| `HdfLinks.AssignThenWalk` | yavdrweb-ng/neo_hdf.c:773-785 | after an assignment from the top a lookup takes the same way through every link the assignment went through, although the one restarts with a longer name and the other resolves the link on its own; if the target was itself one of these links and has no link below it, the lookup ends strictly below it or nowhere |
| `HdfLookup.SetThenWalk` | yavdrweb-ng/neo_hdf.c:773-785 | set then get at the root through any chain of links finds the very node and value exactly if that node is not one of the links followed, where no link lies below it |
| `HdfLookup.SetReadsBack` | yavdrweb-ng/neo_hdf.c:773-785 | the same said before the assignment: the node that a lookup of all but the last component finds, with that component, is where the value is put, and the condition is that it is not one of the links followed |
| `HdfLookup.SelfOverwrittenLink` | yavdrweb-ng/neo_hdf.c:773-785 | a concrete data set in which an assignment overwrites the link that led to it, so that the value cannot be read back |
| `HdfLookup.ReadThroughLower` | yavdrweb-ng/neo_hdf.c:773-785 | a concrete data set in which a followed link with a link below it is overwritten and the value is read back all the same |
| `HdfTermination.SettlesIffRanked` | yavdrweb-ng/neo_hdf.c:196-291 | every link resolution ends exactly when there is a rank that falls along it |
| `HdfTermination.WalkReturns` | yavdrweb-ng/neo_hdf.c:196-291 | if every link resolution ends then every lookup ends |
| `HdfTermination.SetReturns` | yavdrweb-ng/neo_hdf.c:773-785 | every assignment, from any node, ends if the links below that node settle when they are resolved from there and carry a target |
| `HdfTermination.SettledButAborted` | yavdrweb-ng/neo_hdf.c:782 | a concrete data set in which every lookup ends and every link has a target, and still an assignment from an inner node never returns |
| `HdfKeepsSettling.PlainSetKeepsSettling` | yavdrweb-ng/neo_hdf.c:572-802 | if every lookup ended before a plain assignment from any node then every lookup ends after it, unless it overwrites a link that lookups can come to and that has links below it, or aims such a link anew by the empty name |
| `HdfKeepsSettling.PlainSetSettles` | yavdrweb-ng/neo_hdf.c:572-802 | the same said before the assignment, from any node, by the node that a lookup of all but the last component finds |
| `HdfShape.SettlingKeptIff` | yavdrweb-ng/neo_hdf.c:572-802 | overwriting a link by a plain value keeps every lookup ending, wherever the links of the data set lead, exactly if no link is below it or some link is above it |
| `HdfShape.AimingAnewIff` | yavdrweb-ng/neo_hdf.c:584-626 | setting a link by the empty name, which leaves it a link, keeps every lookup ending whatever the value exactly if some link is above it |
| `HdfShape.LoneLinkAimedAnew` | yavdrweb-ng/neo_hdf.c:584-626 | a concrete data set in which the empty name turns a harmless link into one that leads to itself |
| `HdfKeepsSettling.UncoveredCircle` | yavdrweb-ng/neo_hdf.c:572-802 | a concrete data set in which overwriting such a link leaves lookups going round in circles |
| `HdfAttrList.MergeAttr` | yavdrweb-ng/neo_hdf.c:507-552 | the loops over the two linked attribute lists leave exactly the merged list, for every two lists, correctly linked and ended |
| `HdfAttrs.MergeAllValue` | yavdrweb-ng/neo_hdf.c:507-552 | after a merge that loses nothing each key has the last value given for it, or else its old one |
| `HdfAttrs.MergeKeepsAll` | yavdrweb-ng/neo_hdf.c:537-543 | the merge keeps every attribute it is given exactly when there is none, or its first key is already there, or what follows the first says nothing new |
| `HdfAttrs.CombineTakes` | yavdrweb-ng/neo_hdf.c:593-601 | a node that is given attributes has all of them if it had none; otherwise each key has the last value given or its old one, behind the old keys in their places, if the merge loses nothing, and only the first one given is added if it does |
| `HdfAttrs.SecondNewAttributeLost` | yavdrweb-ng/neo_hdf.c:537-543 | a concrete merge of two new attributes that loses the second |
| `HdfLex.QuotedInverse` | yavdrweb-ng/neo_hdf.c:1424-1466 | reading a quoted value undoes its escapes, for every string of bytes and whatever follows |
| `HdfLex.CharKinds` | yavdrweb-ng/neo_hdf.c:1605-1607 | white space, letters and digits, name characters and printable characters by their codes |
| `HdfLex.EscapesAre` | yavdrweb-ng/neo_hdf.c:1171-1178 | which characters an attribute value is written with as they are, which by a letter and which by three octal digits |
| `HdfLex.ParseAttrsInverse` | yavdrweb-ng/neo_hdf.c:1398-1535 | reading a printed attribute list gives back every key and value in order, the value `1` turned into the empty one, and stops right behind the bracket |
| `HdfLex.BareReadIsIdentity` | yavdrweb-ng/neo_hdf.c:1495-1509 | a list comes back unchanged exactly if no value in it is `1` |
| `HdfLine.LineRead` | yavdrweb-ng/neo_hdf.c:1564-1640 | a printed line, with any indentation, dotted name and attributes, is taken apart into that name, those attributes and what follows them |
| `HdfHeredoc.CollectExactly` | yavdrweb-ng/neo_hdf.c:1338-1352 | from any piece on, whatever the buffer's size: the collected text is what stands before the terminator line exactly if no piece to come begins with the terminator and white space, and is cut short otherwise |
| `HdfHeredoc.ReadBodyInverse` | yavdrweb-ng/neo_hdf.c:1683-1734 | a value between its terminator lines is read back exactly if no piece of it begins with the terminator and white space, for every terminator of up to 126 characters |
| `HdfHeredoc.UncutLines` | yavdrweb-ng/neo_hdf.c:1338-1352 | pieces begin at every line start, and otherwise only where a long line fills the buffer |
| `HdfHeredoc.FillPlaces` | yavdrweb-ng/neo_hdf.c:1716-1719 | where a long line is cut: at the end of the first buffer only if the line before it leaves room for the terminator and ten characters, and otherwise at the end of the second |
| `HdfHeredoc.CutShort` | yavdrweb-ng/neo_hdf.c:1710 | a concrete value that the printer closes with `EOM` and the reader cuts short |
| `HdfHeredoc.LongTerminatorMissed` | yavdrweb-ng/neo_hdf.c:1690-1710 | and no further: with a longer terminator not even an empty value ends at it |
| `HdfNormal.NormalIsDumpable` | yavdrweb-ng/neo_hdf.c:1194-1198 | trees with a legible normal form never need a random terminator |
| `HdfDump.EomRefused` | yavdrweb-ng/neo_hdf.c:1194-1198 | the values that `EOM` does not serve: those with its closing line in them, or with all of it but the newline at their end and two characters or more in front |
| `HdfLayout.DumpIsLaid` | yavdrweb-ng/neo_hdf.c:1125-1239 | the text of every tree is its lines, moved in by two blanks a level for at most 127 levels in the pretty format and not at all in the others |
| `HdfLayout.PiecesBeginBlack` | yavdrweb-ng/neo_hdf.c:1134-1139 | no line of a legible tree begins with white space of its own, so the blanks in front are exactly these |
| `HdfLayout.SampleDump` | yavdrweb-ng/neo_hdf.c:1125-1239 | one data set with a block, a link with attributes and a value on several lines, written out in the three formats |
| `HdfRoundTrip.ReadValue` | yavdrweb-ng/neo_hdf.c:1159-1209 | the text printed for one node, on one line or several, makes exactly the assignment of its value, link flag and attributes |
| `HdfRoundTrip.ReadKids` | yavdrweb-ng/neo_hdf.c:1210-1233 | reading the nested text of any legible list appends exactly that list without the nodes nothing is printed for, at any level and with anything behind it |
| `HdfRoundTripDotted.ReadDotted` | yavdrweb-ng/neo_hdf.c:1150-1157 | reading the dotted text does the same, through assignments with longer and longer names |
| `HdfRoundTripDotted.ReadsLegible` | yavdrweb-ng/neo_hdf.c:1125-1239 | reading the dump of any legible tree into an empty data set gives back all that the text says, in each of the formats: bare attributes become empty, values on one line lose the white space around them, and nodes nothing is printed for are gone |
| `HdfRoundTripDotted.BackIsSame` | yavdrweb-ng/neo_hdf.c:1147-1233 | and that is the same tree exactly if no leaf is without a value, no attribute has the value `1` and no value on one line has white space around it |
| `HdfRoundTripDotted.RoundTrip` | yavdrweb-ng/neo_hdf.c:1125-1239 | reading the dump of any printable tree into an empty data set gives back the same tree, in the compact, the pretty and the dotted format |
| `HdfNormal.NormalText` | yavdrweb-ng/neo_hdf.c:1199-1202 | a tree is printed like its normal form, in which multi-line values end in a newline and nodes without a value have no attributes |
| `HdfNormal.ReadsNormal` | yavdrweb-ng/neo_hdf.c:1147-1202 | what is read back is the normal form without the nodes nothing is printed for, in every format; so a tree with a legible normal form survives exactly if it is printable |
| `HdfScanner.TakeQuoted` | yavdrweb-ng/neo_hdf.c:1424-1466 | the loop over a quoted value returns its text and stops behind the closing quote, or fails exactly when there is none |
| `HdfScanner.TakeAttrs` | yavdrweb-ng/neo_hdf.c:1398-1535 | the loop over an attribute list returns all attributes and the position behind the bracket, or fails exactly when the list is misformed |
| `HdfScanner.TakeLine` | yavdrweb-ng/neo_hdf.c:1354-1380 | the line up to the newline, and the position behind it |
| `HdfScanner.ScanLine` | yavdrweb-ng/neo_hdf.c:1557-1682 | one line taken apart into the statement it makes |
| `HdfScanner.CopyPiece` | yavdrweb-ng/neo_hdf.c:1338-1352 | a piece of text goes into the buffer with a zero behind it; what the buffer held stays, and nothing is written past its end |
| `HdfScanner.TakeBody` | yavdrweb-ng/neo_hdf.c:1683-1734 | the growing buffer is never overrun and yields the collected text and the position behind the terminator line |
| `HdfReader.ReadLines` | yavdrweb-ng/neo_hdf.c:1541-1745 | the recursive reader on linked nodes keeps every invariant and leaves exactly the tree, the error and the position that reading on the plain tree gives, for every text whose reading comes to an end |
| `HdfReadPlain.PlainReadEnds` | yavdrweb-ng/neo_hdf.c:1541-1745 | reading a text without link lines into a data set without links always comes to an end, and leaves no links |
| `HdfHandWritten.CommentPassed` | yavdrweb-ng/neo_hdf.c:1586-1589 | a comment is passed over, wherever it begins on its line |
| `HdfHandWritten.BlankPassed` | yavdrweb-ng/neo_hdf.c:1602 | a line of white space is passed over |
| `HdfHandWritten.IncludeRead` | yavdrweb-ng/neo_hdf.c:1558-1585 | an include is an error, or passed over where includes are ignored |
| `HdfHandWritten.BraceCloses` | yavdrweb-ng/neo_hdf.c:1590-1601 | a brace with white space around it ends the block |
| `HdfHandWritten.BraceRefused` | yavdrweb-ng/neo_hdf.c:1593-1599 | a brace with anything else behind it is an error |
| `HdfHandWritten.ItemsRead` | yavdrweb-ng/neo_hdf.c:1398-1535 | a written attribute list, with or without quotes, commas and white space, means its keys and values; a key alone means the empty value |
| `HdfHandWritten.AssignmentRead` | yavdrweb-ng/neo_hdf.c:1621-1632 | `name [..] = value` with any white space sets the value and the attributes and makes no link |
| `HdfHandWritten.LinkRead` | yavdrweb-ng/neo_hdf.c:1646-1657 | `name [..] : target` makes a link |
| `HdfHandWritten.CopyRead` | yavdrweb-ng/neo_hdf.c:1633-1645 | `name [..] := source` takes over the value that a lookup from the top finds, or the empty text |
| `HdfHandWritten.TextRead` | yavdrweb-ng/neo_hdf.c:1681-1735 | `name [..] << TERM` takes the text up to the line with the terminator, for any terminator of up to 126 characters |
| `HdfHandWritten.BlockRead` | yavdrweb-ng/neo_hdf.c:1658-1680 | `name [..] {` makes a node without a value, or gives the attributes to the node that is there, and reads the block into it |
| `HdfHandWritten.BlockAttribute` | yavdrweb-ng/neo_hdf.c:1667-1670 | an attribute given in front of a block to a node that is there is found afterwards; every other attribute, its value, link flag and children, and every other place stay |
| `HdfHandWritten.NothingMeant` | yavdrweb-ng/neo_hdf.c:1736-1741 | a name without a sign behind it is refused |
| `HdfHandWritten.ListRefused` | yavdrweb-ng/neo_hdf.c:1413-1423 | an attribute list that begins with no key, or ends with the line in its first key, is refused |
| `HdfHandWritten.OctalRead` | yavdrweb-ng/neo_hdf.c:1434-1450 | octal escapes of one and two digits |
| `HdfHandWritten.ThreeDigitsRead` | yavdrweb-ng/neo_hdf.c:1434-1450 | an octal escape takes no more than three digits, and its number is cut to a byte |
| `HdfHandWritten.LastLine` | yavdrweb-ng/neo_hdf.c:1368-1380 | the last line of a text need not be ended |
| `HdfPrinter.PrintAttrs` | yavdrweb-ng/neo_hdf.c:1159-1189 | the loop over the attributes writes the list's text |
| `HdfPrinter.PrintNodes` | yavdrweb-ng/neo_hdf.c:1125-1239 | the recursive printer on linked nodes writes exactly the text of the tree, whenever `EOM` can serve as terminator |
| `HdfFiles.WriteThenRead` | yavdrweb-ng/neo_hdf.c:1306-1334 | a data set of linked nodes printed and read into a new one: its normal form without the nodes nothing is printed for, and the same names, sibling order, values, links and attributes exactly if it is printable |
| `HdfFiles.ReadPlain` | yavdrweb-ng/neo_hdf.c:1541-1745 | the reader on linked nodes for every text without link lines and every data set without links, with no further condition |
| `Wildcard.Wildcmp` | yavdrweb-ng/get_file_content.ecpp:21-54 | for every pattern and string the loop returns non-zero exactly when the recursive meaning of the pattern matches, and it terminates |
| `Wildcard.StarlessMeaning` | yavdrweb-ng/get_file_content.ecpp:26-32 | without a star a pattern matches the texts of its length that agree with it wherever it has no question mark |
| `Wildcard.StarMeaning` | yavdrweb-ng/get_file_content.ecpp:34-53 | its first star lets a pattern match what its two sides match, with any text between |
| `Wildcard.LastStarSuffices` | yavdrweb-ng/get_file_content.ecpp:30-41 | when a further star is met, forgetting the earlier one loses nothing |
| `Wildcard.MismatchMovesOn` | yavdrweb-ng/get_file_content.ecpp:41-44 | a mismatch rules out the run being tried for the last star and no other |
| `Channels.ReadRecords` | yavdrweb-ng/static/javascripts/component/settings/vdr_channels.js:371-439 | the reading loop makes one record for every non-empty line, with the fields of that line, and numbers the channels by a counter that every group number replaces |
| `Channels.GenerateConfig` | yavdrweb-ng/static/javascripts/component/settings/vdr_channels.js:449-470 | the writing loop gives the lines of all records in order |
| `Channels.Resort` | yavdrweb-ng/static/javascripts/component/settings/vdr_channels.js:488-510 | every channel record gets, in place, the running number that group numbers only ever raise |
| `ChannelRoundTrip.LineRoundTrip` | yavdrweb-ng/static/javascripts/component/settings/vdr_channels.js:380-412 | for a row whose text avoids the separators: its line reads back as the row exactly when the row is clean |
| `ChannelRoundTrip.FieldsRead` | yavdrweb-ng/static/javascripts/component/settings/vdr_channels.js:394-411 | which field of a channel line is which, and that the row is written as that line again |
| `ChannelRoundTrip.ShortLineRead` | yavdrweb-ng/static/javascripts/component/settings/vdr_channels.js:394-411 | a line without a semicolon has no provider, and the fields behind its last column are missing |
| `ChannelRoundTrip.LineByLine` | yavdrweb-ng/static/javascripts/component/settings/vdr_channels.js:371-379 | a file is read line by line, and an empty line says nothing |
| `ChannelRoundTrip.GroupsRead` | yavdrweb-ng/static/javascripts/component/settings/vdr_channels.js:382-391 | numbered groups and groups without a number, read and written |
| `ChannelRoundTrip.MissingReadsAsWord` | yavdrweb-ng/static/javascripts/component/settings/vdr_channels.js:460-466 | a missing field is written as the word `undefined` and is there when it is read again; all others stay |
| `ChannelRoundTrip.RoundTripExactly` | yavdrweb-ng/static/javascripts/component/settings/vdr_channels.js:449-470 | writing any list of rows and reading it gives the same list exactly when every row is clean: no separator in a field, no field missing, group numbers positive, no unnumbered name that looks numbered |
| `ChannelRoundTrip.SaveAndLoad` | yavdrweb-ng/static/javascripts/component/settings/vdr_channels.js:471-485 | the same for the records themselves, written out by one loop and read by the other |
| `ChannelNumbers.RenumberedIsLeast` | yavdrweb-ng/static/javascripts/component/settings/vdr_channels.js:488-510 | the renumbering is admissible (positive, strictly rising, never below a group number before it) and pointwise least among all admissible numberings |
| `ChannelNumbers.ResortIsIdempotent` | yavdrweb-ng/static/javascripts/component/settings/vdr_channels.js:488-510 | renumbering leaves the records renumbered, and changes nothing exactly when they were so already |
| `ChannelNumbers.SameNumbersIff` | yavdrweb-ng/static/javascripts/component/settings/vdr_channels.js:386-389 | the reader's numbers are those of the renumbering exactly when no group number that channels are counted from is unreadable or below the running number |
| `ChannelNumbers.CountedOn` | yavdrweb-ng/static/javascripts/component/settings/vdr_channels.js:386-411 | the reader counts channels on from the last group number, or from one, and from no number if that one is unreadable |
| `ChannelNumbers.LoadAndResort` | yavdrweb-ng/static/javascripts/component/settings/vdr_channels.js:428-429 | after loading a file, renumbering changes no channel's number exactly under that condition |
| `Text.PrintedParses` | yavdrweb-ng/static/javascripts/component/settings/vdr_channels.js:388 | every integer is read back from its digits, with either sign |
| `Text.HexParses` | yavdrweb-ng/static/javascripts/component/settings/vdr_channels.js:388 | text with a hexadecimal prefix is read as hexadecimal, in both cases of letters, up to the first other character |
| `Text.NoNumber` | yavdrweb-ng/static/javascripts/component/settings/vdr_channels.js:388 | text that begins with no digit, sign or blank is no number for `parseInt`, and zero for `atoi` |
| `Text.BlanksSkipped` | yavdrweb-ng/static/javascripts/component/settings/vdr_channels.js:388 | leading white space does not matter |
| `Text.DecimalWritten` | yavdrweb-ng/static/javascripts/component/settings/vdr_channels.js:449-470 | numbers are written with the last digit last and no zeros in front |
| `ChannelJson.ScanIsSplit` | yavdrweb-ng/get_svdrp_response.ecpp:66-201 | walking through the buffer from colon to colon finds the columns that splitting finds, whatever follows the line |
| `ChannelJson.Convert` | yavdrweb-ng/get_svdrp_response.ecpp:28-201 | the offset arithmetic yields name, provider and columns as cut out around the first semicolon and the colons; it throws exactly when the buffer is too short or the name would start behind its end |
| `Text.AtoiPrinted` | yavdrweb-ng/get_svdrp_response.ecpp:103 | the numbers of the reply are read up to the first other character, with blanks and a sign in front |
| `ChannelAgreement.NameOfReply` | yavdrweb-ng/get_svdrp_response.ecpp:36-64 | name and provider as offsets into the reply are the parts of the line before and behind its first semicolon |
| `ChannelAgreement.NameFrom` | yavdrweb-ng/get_svdrp_response.ecpp:36-64 | the name begins behind whichever place the caller names, and is `unknown` if that is the first character |
| `ChannelAgreement.UnmarkedReply` | yavdrweb-ng/get_svdrp_response.ecpp:36-201 | a reply with neither semicolon nor colon: its name is all behind the second blank, there is no provider, and every column is all behind the status |
| `ChannelAgreement.ColumnsOfReply` | yavdrweb-ng/get_svdrp_response.ecpp:66-201 | the columns of the reply are the columns of the line |
| `ChannelAgreement.ReadBothWays` | yavdrweb-ng/get_svdrp_response.ecpp:28-201 | on every channel line both readers extract the same name, modulation, source, vpid, apid, tpid, caid and tid (and numbers read from the same columns); the provider agrees exactly when at most one semicolon comes before the first colon; the last column agrees when the reply ends in CR LF |
| `Tokens.Tokenize` | yavdrweb-ng/get_x11.ecpp:22-40 | the two-position loop returns the words of the text, for every text and every set of delimiters |
| `Tokens.WordsOfRendered` | yavdrweb-ng/get_x11.ecpp:22-40 | whatever words and gaps a text is made of, its words are those words |
| `Modelines.HeldAsIntended` | yavdrweb-ng/get_x11.ecpp:619-630 | the test on `isedid` is true only of null and never lets a modeline replace another, so a slot holds the first EDID modeline of its key, as the test was meant to see to, exactly if the key has none or its first modeline is one |
| `Modelines.HolderIs` | yavdrweb-ng/get_x11.ecpp:619-630 | what a slot holds, said of the stream alone: the first modeline of that resolution and frequency, where a display that is on passes over the automatic mode |
| `Modelines.AllHeldAsIntended` | yavdrweb-ng/get_x11.ecpp:619-630 | and all slots do exactly if no EDID modeline comes behind a first one of its key that is not |
| `Modelines.EdidComesTooLate` | yavdrweb-ng/get_x11.ecpp:619-630 | a concrete pair of modelines in which the EDID one is not taken |
| `Modelines.Table.Add` | yavdrweb-ng/get_x11.ecpp:300-319 | filing one modeline keeps the whole table right: one row per resolution where `known` points, every slot holding the first modeline of its key |
| `Modelines.Table.IdsDistinct` | yavdrweb-ng/get_x11.ecpp:552-572 | no two rows have the same id, the initial ones included |
| `Modelines.Table.Lookups` | yavdrweb-ng/get_x11.ecpp:610-630 | `known` has exactly the resolutions seen, points at their rows, and every slot of such a row holds the first modeline of its key or is empty |
| `ModelineReader.PiecesOfTerminated` | yavdrweb-ng/get_x11.ecpp:573-585 | from NUL-terminated modelines with an empty one behind them exactly these are read |
| `WrittenModelines.WrittenRead` | yavdrweb-ng/get_x11.ecpp:578-630 | a modeline written as attributes, colons, quoted name, nine or more numbers and option words in either case, with any blanks between: the resolution, rate, letters, name, EDID mark, sizes and clock values that are read off it, and its text exactly if at most one blank stands before the name |
| `WrittenModelines.TrimExactly` | yavdrweb-ng/get_x11.ecpp:75-91 | exactly the blanks at both ends go, and no other white space |
| `ModelineReader.ReadTable` | yavdrweb-ng/get_x11.ecpp:262-319 | the walk over the buffer files exactly the modelines before the first empty one, in order |
| `ModelineReader.ModelinesOf` | yavdrweb-ng/get_x11.ecpp:552-637 | for every buffer of complete modelines the finished table gives each resolution one row and each slot the first modeline of its key; there are no other rows for a display that is on, whose slots never hold the automatic mode, and exactly the rows `disabled` and `nvidia-auto-select` in front for one that is off; and the slots prefer EDID modelines as meant exactly if these come first |
| `Strargs.Substitute` | yavdrweb-ng/static/javascripts/gettext.js:1070-1120 | the loop returns the expansion of the template and terminates on every string |
| `Strargs.ExpandWritten` | yavdrweb-ng/static/javascripts/gettext.js:1085-1114 | expanding a written template gives its literals and arguments one after the other; argument text is never looked at again |
| `Strargs.NumberedArgument` | yavdrweb-ng/static/javascripts/gettext.js:1101-1109 | a reference by number picks the argument at that place, counted from one; zero, a number that is too large and a missing argument print nothing |
| `Strargs.EveryStringIsWritten` | yavdrweb-ng/static/javascripts/gettext.js:1085-1114 | every string is such a template, so the two lemmas say what `strargs` does to any string |

## Left out

- HdfPrinter.PrintNodes: terminators other than `EOM` are left out; the printer draws random ones for values that contain `EOM` on a line of its own and keeps using them for later siblings, and the model asks for data sets that do not need them.
- `#include` of a file, reading and writing files, search paths and the registered file loader: input and output. An `#include` line in a string is an error or passed over, as in the code.
- Failing allocation, and memory that is freed and handed out again: nodes that have been removed stay distinct from all others, and a value has no identity beyond its text.
- HdfStoreCopy.CopyTree: within one data set it asks for a destination beside the source; `HdfStoreCopyWithin.CopyTreeWithin` has the other ones.
- HdfStore.HdfStore.SetValue: attributes of a node are a sequence there; the linked list and its merge are modelled on their own in `HdfAttrList`.
- A null value or name of the root is the empty text, attribute values are never null, and strings hold no NUL except where a buffer of them is read.
- HdfScanner.TakeQuoted: a backslash as the very last character makes the C code read behind the text; the model takes it as a misformed list.
- HdfCopyUpwards.UpwardsIsPlain: of a copy to a node above its source that has something under the path leading to it from there, `HdfCopyUpwards.Arrives`, `HdfCopyUpwards.AllTakenOver` and `HdfCopyWithin.LiveKeeps` say which nodes there are afterwards; the values that the loop leaves where it copies into what it has yet to read are not stated.
- HdfLookup.SetThenWalk: what is found after overwriting a followed link that has links of its own below it depends on where those lead and is not stated.
- HdfRuns.Run: copies come from one second data set, or from beside the destination in the data set itself.
- HdfRuns.RunOnNew: links are left out of the runs whose contents are replayed; with links, `HdfRuns.Run` and the laws of one operation hold.
- Node lookups by `hdf_get_int_value`, `hdf_get_copy`, `hdf_set_attr` and the printf-style variants: short members over the same lookup and assignment.
- Derived fields of a channel record (`x_unique_id`, `channel_type`) and the human-readable additions of the JSON reader: functions of the fields that are modelled.
- ChannelJson.Convert: `int` and `size_t` are unbounded, except that adding to npos wraps; a buffer has fewer than 2^31 characters.
- Numbers of the scripting language are integers: no fractions, and no exponent form for huge ones.
- Modelines: the two rows for an analogue display, and `atof`; clock values are kept as text.
- Modelines.Table.Add: the table is a sequence of rows with a map of modes in place of nested JSON values.
- HdfNormal.ReadsNormal: links with children, names that are no labels, attribute keys that are no words, and multi-line values a piece of which begins with `EOM` and white space are not legible, and nothing is said of how their trees read back.
- ModelineReader.ReadTable: asks for modelines with a name and at least nine numbers; on fewer the C++ code reads outside its vector.
- Strargs.Substitute: arguments are texts or missing; a single argument that is not an array is put into one by the caller.
- PAM, sound, the network, X11 queries, the ExtJS panels, `Gettext.parse_po` and `sprintf.js`: foreign calls, user interface, or number formatting.
