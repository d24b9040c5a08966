# KiCad2HAL translator, modelled in Dafny

KiCad2HAL turns a KiCad schematic netlist into a LinuxCNC HAL configuration file. The input is
a netlist that has already been parsed: components, nets made of nodes (pins of components),
and library parts with their pin tables. The output is a sequence of HAL lines in five sections:

- the modules to load: `loadusr` and `loadrt` components, then one `loadrt <part> count=N` line
  per part driven by a thread;
- the thread hooks: `addf` lines, optionally ordered by the thread's `order`/`sequence` field;
- the parameters: `setp` lines for two-node nets between a `PARAMETER` symbol and a pin;
- the nets: `net` lines from a driving output to the driven pins, with warnings;
- the signals: `sets` lines for nets driven by a `PARAMETER` symbol.

The model has two layers:

- Pure modules say what each section holds, as functions of the netlist and the component
  index. These are `Text`, `Netlist`, `Pins`, `ModuleLoader`, `HookScheduler`, `Parameters`
  and `Wiring`. The lemmas about them state the properties of the translation.
- The class `KiCad2Hal.Translator` mirrors the Java object. It has the netlist, the component
  index `compMap` and the output stream `out` (a sequence of lines). Each `print...` method is
  imperative: loops with invariants that append to `out`. Each is proved to append exactly the
  lines the pure layer defines.

The Java code throws on some malformed input. It throws when a node names a component that is
not in the index, when no library part resolves a pin, and when a thread-driven part has no
`.`. These conditions are modelled as `Failure` values, not preconditions. A section method
returns `Aborted(failure)` exactly when the pure definition of its section fails.

`HashMap` iteration order is unspecified in Java. Two outputs depend on it: the count lines of
a thread and the `sets` lines. The methods that print these return a ghost `order`, proved to be
an enumeration of the map's keys (`IsEnumeration`). The printed lines are then proved to be
those of that order.

Behaviour of the code worth noting:

- The `loadrt ... count=N` tally is per thread. A fresh map is made for every thread at
  `KiCad2HAL.java:159`, and its lines come in that `HashMap`'s iteration order.
- The hook candidates are all `input` nodes of the net. That includes the thread's own node
  when it is an `input` (`KiCad2HAL.java:204-205`).
- The signal table is keyed by the full net name with its leading `/`. The `sets` line prints
  that key (`KiCad2HAL.java:315`, `:336`).
- `getPinFunction` searches every library part of the given name in list order. The first one
  that has the pin wins (`KiCad2HAL.java:395-403`).
- `getNumber` multiplies an accumulator that starts at 0, so it returns 0 for every
  reference (`KiCad2HAL.java:372-382`). The descending sort therefore keeps list order.

## Model

| member | source | states |
|---|---|---|
| KiCad2Hal.Translator.constructor | src/main/java/de/gerner/linuxcnc/hal/KiCad2HAL.java:86-95 | the index is the component list keyed by reference, the last component of a reference winning; it knows every component; nothing is printed yet |
| Netlist.Index | src/main/java/de/gerner/linuxcnc/hal/KiCad2HAL.java:90-94 | the component index: every component put under its reference in list order, so a later component with the same reference replaces an earlier one; the next rows state its properties |
| Netlist.Lookup | src/main/java/de/gerner/linuxcnc/hal/KiCad2HAL.java:162 | `compMap.get(ref)` followed by a dereference: the indexed component when the reference is a key, an `UnknownRef` failure exactly when it is not (where the Java code throws) |
| Netlist.IndexKeys | src/main/java/de/gerner/linuxcnc/hal/KiCad2HAL.java:90-94 | the index has a key exactly for each reference that occurs in the component list |
| Netlist.IndexLastWins | src/main/java/de/gerner/linuxcnc/hal/KiCad2HAL.java:90-94 | each key maps to a component of the list after which no component has that reference (`put` overwrites) |
| Netlist.IndexRefs | src/main/java/de/gerner/linuxcnc/hal/KiCad2HAL.java:90-94 | the component stored under a reference carries that reference |
| Netlist.IndexFindsEach | src/main/java/de/gerner/linuxcnc/hal/KiCad2HAL.java:90-94 | with unique references, looking up a component's reference returns that very component |
| Output.EnumerationListsKeys | src/main/java/de/gerner/linuxcnc/hal/KiCad2HAL.java:172-175 | a map iteration order lists every key, only keys, and each key once |
| Output.EnumerationSize | src/main/java/de/gerner/linuxcnc/hal/KiCad2HAL.java:334-338 | a map iteration order has exactly as many entries as the map |
| Output.SectionIntro | src/main/java/de/gerner/linuxcnc/hal/KiCad2HAL.java:341-348 | `printSectionIntro`: two empty lines, a rule of 52 `#`, then `# ` and the title |
| KiCad2Hal.Translator.PrintSectionIntro | src/main/java/de/gerner/linuxcnc/hal/KiCad2HAL.java:341-348 | appends the two blank lines, the rule and the `# title` line, and nothing else |
| Text.PadRight | src/main/java/de/gerner/linuxcnc/hal/KiCad2HAL.java:174 | `%-Ns`: the text, then spaces up to width N; text longer than N is kept whole |
| Text.IndexOf | src/main/java/de/gerner/linuxcnc/hal/KiCad2HAL.java:166 | `indexOf`: the first position of the character, or -1 exactly when it does not occur |
| Text.Split | src/main/java/de/gerner/linuxcnc/hal/KiCad2HAL.java:227 | `split("[,; ]+")` without a limit: the whole value when it has no delimiter, otherwise the pieces between delimiter runs with trailing empty pieces dropped; its properties are the lemmas below |
| Text.SplitTokens | src/main/java/de/gerner/linuxcnc/hal/KiCad2HAL.java:227 | `split("[,; ]+")`: the tokens contain no delimiter; together they hold all non-delimiter text in order; only the first may be empty, and only when the value is empty or starts with a delimiter; no trailing empty token |
| Text.PiecesJoined | src/main/java/de/gerner/linuxcnc/hal/KiCad2HAL.java:227 | tokens joined by delimiter runs, plus an optional trailing run, split into exactly those tokens, with one empty piece for a trailing run |
| Text.SplitJoined | src/main/java/de/gerner/linuxcnc/hal/KiCad2HAL.java:227 | round trip: tokens joined by non-empty delimiter runs, with optional leading and trailing runs, split back into exactly those tokens, preceded by one empty token exactly when there is a leading run |
| Text.SplitLeadingDelim | src/main/java/de/gerner/linuxcnc/hal/KiCad2HAL.java:227 | a value that starts with a delimiter splits into nothing exactly when it has no other text, and otherwise into tokens whose first is empty |
| Pins.FindPin | src/main/java/de/gerner/linuxcnc/hal/KiCad2HAL.java:397-401 | the name of the first pin with the given number; none exactly when no pin has it |
| Pins.FindInLibParts | src/main/java/de/gerner/linuxcnc/hal/KiCad2HAL.java:395-403 | the first library part of that name having the pin, in list order, supplies the name; none exactly when no such part exists |
| Pins.PinFunction | src/main/java/de/gerner/linuxcnc/hal/KiCad2HAL.java:389-405 | the node's own pin function when present; otherwise the library search; a `NoSuchPin` failure exactly when the search finds nothing |
| Pins.IsLoadrt | src/main/java/de/gerner/linuxcnc/hal/KiCad2HAL.java:384-387 | a part is a `loadrt` module exactly when its name starts with `loadrt` |
| Pins.BuildFullName | src/main/java/de/gerner/linuxcnc/hal/KiCad2HAL.java:407-416 | `buildFullName`: `bb_gpio.` and the pin for GPIO values, the value and the pin when the value ends in `.`, else value, `.` and pin; its shape is the next row |
| Pins.FullNameShape | src/main/java/de/gerner/linuxcnc/hal/KiCad2HAL.java:407-416 | every full name is a prefix ending in `.` and then the pin; the prefix is `bb_gpio.` for GPIO values, otherwise the value itself exactly when it already ends in `.`, else the value plus `.` |
| ModuleLoader.NumberKey | src/main/java/de/gerner/linuxcnc/hal/KiCad2HAL.java:372-382 | `getNumber` in 32-bit `int` arithmetic (`Wrap32`): each digit multiplies the accumulator by `10 + digit`; the next row proves it is always 0 |
| ModuleLoader.NumberKeyIsZero | src/main/java/de/gerner/linuxcnc/hal/KiCad2HAL.java:372-382 | the sort key of every reference is 0 |
| KiCad2Hal.Translator.GetNumber | src/main/java/de/gerner/linuxcnc/hal/KiCad2HAL.java:372-382 | the accumulator loop, in 32-bit arithmetic, returns the sort key of the reference, which is 0 |
| ModuleLoader.SortDesc | src/main/java/de/gerner/linuxcnc/hal/KiCad2HAL.java:361-365 | `modules.sort` with the comparator `i2 - i1`: a stable insertion sort by descending key; the next two rows state its properties |
| ModuleLoader.SortDescSortsAndPermutes | src/main/java/de/gerner/linuxcnc/hal/KiCad2HAL.java:361-365 | the sort returns a permutation of its input in descending key order |
| ModuleLoader.SortDescIsIdentity | src/main/java/de/gerner/linuxcnc/hal/KiCad2HAL.java:361-365 | with all keys tied, the stable sort leaves the list unchanged |
| ModuleLoader.ModuleRefs | src/main/java/de/gerner/linuxcnc/hal/KiCad2HAL.java:356-360 | the references of the components whose part starts with the prefix, in component-list order |
| ModuleLoader.ModuleLoadLines | src/main/java/de/gerner/linuxcnc/hal/KiCad2HAL.java:354-370 | the lines of `findAndPrintModulesToLoad`: the collected references sorted by descending key, each replaced by the value of the component the index holds for it |
| ModuleLoader.ModuleRefsAreRefs | src/main/java/de/gerner/linuxcnc/hal/KiCad2HAL.java:356-360 | every collected module reference is the reference of some component |
| ModuleLoader.SortedModuleRefsIndexed | src/main/java/de/gerner/linuxcnc/hal/KiCad2HAL.java:366-369 | every sorted module reference is found in the index, so the print loop never fails |
| ModuleLoader.ValuesOfModuleRefs | src/main/java/de/gerner/linuxcnc/hal/KiCad2HAL.java:366-369 | when the index holds every component under its reference, the printed values are those of the components with the prefix, in list order |
| ModuleLoader.ModulesPrintedOnceInOrder | src/main/java/de/gerner/linuxcnc/hal/KiCad2HAL.java:354-370 | with unique references, the module lines are the values of the components whose part has the prefix, each once, in component-list order |
| KiCad2Hal.Translator.CollectModules | src/main/java/de/gerner/linuxcnc/hal/KiCad2HAL.java:356-360 | the list built is the references of the components whose part starts with the prefix, in list order |
| KiCad2Hal.Translator.PrintValues | src/main/java/de/gerner/linuxcnc/hal/KiCad2HAL.java:366-369 | appends the value of the indexed component of each reference, in order |
| KiCad2Hal.Translator.FindAndPrintModulesToLoad | src/main/java/de/gerner/linuxcnc/hal/KiCad2HAL.java:354-370 | appends exactly the module lines of the prefix: the values of the sorted collected references |
| ModuleLoader.ThreadNodes | src/main/java/de/gerner/linuxcnc/hal/KiCad2HAL.java:149-157 | all nodes of every net that has a node of the thread, in net order |
| ModuleLoader.BarePart | src/main/java/de/gerner/linuxcnc/hal/KiCad2HAL.java:166 | fails exactly when the part has no `.`; otherwise the result has no `.` and the part starts with it followed by `.` |
| ModuleLoader.CountMapCounts | src/main/java/de/gerner/linuxcnc/hal/KiCad2HAL.java:167-168 | the counter map has an entry for exactly the parts seen, holding how often each occurs |
| ModuleLoader.NodePart | src/main/java/de/gerner/linuxcnc/hal/KiCad2HAL.java:161-169 | what one node adds to the tally: nothing unless it is an `input` of a non-`loadrt` part, then its bare part; an unknown reference or a part without `.` fails |
| ModuleLoader.BareParts | src/main/java/de/gerner/linuxcnc/hal/KiCad2HAL.java:160-171 | the bare parts of the thread's nodes in node order, or the failure of the first node that fails |
| ModuleLoader.BarePartsCount | src/main/java/de/gerner/linuxcnc/hal/KiCad2HAL.java:160-170 | each bare part occurs as often as there are `input` nodes of non-`loadrt` components with that bare part |
| ModuleLoader.ThreadTally | src/main/java/de/gerner/linuxcnc/hal/KiCad2HAL.java:159-171 | the thread's tally: the counter map of its bare parts, or the first failure |
| ModuleLoader.TallyCounts | src/main/java/de/gerner/linuxcnc/hal/KiCad2HAL.java:143-171 | a thread's tally has a key for exactly the bare parts of its counted nodes, and each count is the number of such nodes |
| KiCad2Hal.Translator.CollectThreadNodes | src/main/java/de/gerner/linuxcnc/hal/KiCad2HAL.java:147-157 | the collected nodes are all nodes of every net that has a node of the thread, in net order |
| KiCad2Hal.Translator.CountThreadComps | src/main/java/de/gerner/linuxcnc/hal/KiCad2HAL.java:158-171 | the counter map built is the thread's tally, or the first failure (unknown reference, part without `.`) |
| ModuleLoader.CountLine | src/main/java/de/gerner/linuxcnc/hal/KiCad2HAL.java:174-175 | `loadrt %-20s count=%d`: the part padded to 20, then the count in decimal |
| ModuleLoader.CountLines | src/main/java/de/gerner/linuxcnc/hal/KiCad2HAL.java:173-176 | the count lines of a tally, one per key in the given iteration order |
| ModuleLoader.CountLinesContent | src/main/java/de/gerner/linuxcnc/hal/KiCad2HAL.java:172-175 | one `loadrt` line per tally entry, in the iteration order, each carrying its part and count |
| ModuleLoader.CountLineAt | src/main/java/de/gerner/linuxcnc/hal/KiCad2HAL.java:172-175 | the i-th count line is that of the i-th key of the iteration order |
| KiCad2Hal.Translator.PrintCounts | src/main/java/de/gerner/linuxcnc/hal/KiCad2HAL.java:172-175 | returns an iteration order of the tally and appends its count lines in that order |
| KiCad2Hal.Translator.PrintThreadTally | src/main/java/de/gerner/linuxcnc/hal/KiCad2HAL.java:147-175 | returns the thread's tally; on success appends its count lines in some iteration order, on failure nothing |
| ModuleLoader.ThreadTalliesStep | src/main/java/de/gerner/linuxcnc/hal/KiCad2HAL.java:142-176 | a non-thread component adds no tally; a thread adds its tally, or its failure ends the section |
| ModuleLoader.CountSection | src/main/java/de/gerner/linuxcnc/hal/KiCad2HAL.java:142-177 | the count lines of every thread in component order, each tally in its own iteration order |
| ModuleLoader.CountSectionAppend | src/main/java/de/gerner/linuxcnc/hal/KiCad2HAL.java:142-176 | one more thread appends its count lines to the section and keeps every tally enumerated |
| KiCad2Hal.Translator.PrintThreadCounts | src/main/java/de/gerner/linuxcnc/hal/KiCad2HAL.java:142-176 | fails exactly when some thread's tally fails; otherwise appends the count lines of every thread, in component order |
| KiCad2Hal.Translator.PrintModules | src/main/java/de/gerner/linuxcnc/hal/KiCad2HAL.java:130-178 | appends the banner, the `loadusr` lines, the `loadrt` lines and the count lines of every thread; fails exactly when a tally fails |
| HookScheduler.Put | src/main/java/de/gerner/linuxcnc/hal/KiCad2HAL.java:214-216 | `LinkedHashMap.put`: a new name is added at the end; an existing name keeps its position and gets the new line |
| HookScheduler.PutAll | src/main/java/de/gerner/linuxcnc/hal/KiCad2HAL.java:203-219 | the hook map after putting the hooks of the net in node order into an empty `LinkedHashMap` |
| HookScheduler.AddfLine | src/main/java/de/gerner/linuxcnc/hal/KiCad2HAL.java:213-217 | the `addf` line of a hook: hook padded to 20, tab, thread, and when the position is not empty the thread padded to 10, a space and the position |
| HookScheduler.PutAllKeepsFirstPosition | src/main/java/de/gerner/linuxcnc/hal/KiCad2HAL.java:203-219 | the hook map keeps each hook name once, at the position of its first insertion |
| HookScheduler.PutAllDistinct | src/main/java/de/gerner/linuxcnc/hal/KiCad2HAL.java:203-219 | the hook map's names are distinct and every inserted name is in it |
| HookScheduler.PutAllKeepsLastLine | src/main/java/de/gerner/linuxcnc/hal/KiCad2HAL.java:203-219 | each entry holds the line last written for its name |
| HookScheduler.DedupMembers | src/main/java/de/gerner/linuxcnc/hal/KiCad2HAL.java:203-219 | dropping repeats keeps every name and lists each once |
| HookScheduler.Matched | src/main/java/de/gerner/linuxcnc/hal/KiCad2HAL.java:233-240 | the pending hooks whose name starts with the token, in map order: those printed and removed by one pass of the iterator |
| HookScheduler.Unmatched | src/main/java/de/gerner/linuxcnc/hal/KiCad2HAL.java:233-240 | the pending hooks the token does not prefix, in map order: those left in the map by that pass |
| HookScheduler.Schedule | src/main/java/de/gerner/linuxcnc/hal/KiCad2HAL.java:231-245 | the emission order: for each token in turn the pending hooks it prefixes, in map order, then the remaining hooks in map order; ScheduleByRank and SchedulePermutes state its properties |
| HookScheduler.Rank | src/main/java/de/gerner/linuxcnc/hal/KiCad2HAL.java:232-241 | a hook's rank is the first token that prefixes its name, or the token count when none does |
| HookScheduler.ScheduleByRank | src/main/java/de/gerner/linuxcnc/hal/KiCad2HAL.java:231-245 | the emission order lists hooks by rank: those matched by an earlier token first, unmatched ones last, map order kept within a rank |
| HookScheduler.SchedulePermutes | src/main/java/de/gerner/linuxcnc/hal/KiCad2HAL.java:231-245 | every hook of the map is emitted exactly once |
| HookScheduler.SplitPermutes | src/main/java/de/gerner/linuxcnc/hal/KiCad2HAL.java:233-240 | one token's pass splits the pending hooks into emitted and kept, losing and adding none |
| HookScheduler.EmptyTokenKeepsMapOrder | src/main/java/de/gerner/linuxcnc/hal/KiCad2HAL.java:227-241 | an empty first token matches every hook, so the whole map is emitted in map order and later tokens find nothing |
| HookScheduler.LeadingDelimKeepsOrder | src/main/java/de/gerner/linuxcnc/hal/KiCad2HAL.java:227-245 | an `order`/`sequence` value that starts with a delimiter leaves the map order unchanged |
| HookScheduler.MatchedByEmpty | src/main/java/de/gerner/linuxcnc/hal/KiCad2HAL.java:236 | the empty token is a prefix of every hook name |
| HookScheduler.EmptyMapSchedule | src/main/java/de/gerner/linuxcnc/hal/KiCad2HAL.java:231-245 | a net without hooks emits nothing, whatever the tokens |
| HookScheduler.AddfOmitsPositionIff | src/main/java/de/gerner/linuxcnc/hal/KiCad2HAL.java:213-217 | the `addf` line is hook and thread alone exactly when the position is empty; otherwise the padded thread and the position follow |
| HookScheduler.FirstNodeOf | src/main/java/de/gerner/linuxcnc/hal/KiCad2HAL.java:193-199 | the first node of the component in the net; none exactly when the net has no node of it |
| HookScheduler.FirstNodeOfIs | src/main/java/de/gerner/linuxcnc/hal/KiCad2HAL.java:193-199 | a scan stopping at the first node of the component finds the node of `FirstNodeOf` |
| HookScheduler.HookName | src/main/java/de/gerner/linuxcnc/hal/KiCad2HAL.java:206-212 | the hook of an `input` node: its pin function for a `loadrt` part, the component's value otherwise; an unknown reference or an unresolved pin fails |
| HookScheduler.HookPairs | src/main/java/de/gerner/linuxcnc/hal/KiCad2HAL.java:204-219 | the name and `addf` line of every `input` node in node order, before they enter the map, or the first failure |
| HookScheduler.HookMap | src/main/java/de/gerner/linuxcnc/hal/KiCad2HAL.java:203-219 | the `addf` lines of every `input` node put in node order, or the failure of the first node whose component or pin function cannot be found |
| HookScheduler.IsOrderField | src/main/java/de/gerner/linuxcnc/hal/KiCad2HAL.java:226 | a field is an order field when its name equals `order` or `sequence`, ignoring case |
| HookScheduler.OrderTokens | src/main/java/de/gerner/linuxcnc/hal/KiCad2HAL.java:223-230 | the split value of the first order field; no tokens when there is none |
| HookScheduler.NetHookLines | src/main/java/de/gerner/linuxcnc/hal/KiCad2HAL.java:191-245 | a net without a node of the thread prints nothing; otherwise the lines of its hook map in schedule order (map order when the thread has no `order`/`sequence` field) |
| HookScheduler.ThreadHookLines | src/main/java/de/gerner/linuxcnc/hal/KiCad2HAL.java:191-246 | the hook lines of one thread over all nets in net order, or the first failing net's failure |
| HookScheduler.ComponentHookLines | src/main/java/de/gerner/linuxcnc/hal/KiCad2HAL.java:184-247 | the hook lines of a `thread` component; nothing for any other part |
| HookScheduler.HookSection | src/main/java/de/gerner/linuxcnc/hal/KiCad2HAL.java:184-247 | the body of the hook section: the lines of every component in component order, or the first failure |
| HookScheduler.ThreadHookLinesStep | src/main/java/de/gerner/linuxcnc/hal/KiCad2HAL.java:191-246 | one more net appends its hook lines, or its failure ends the thread |
| HookScheduler.HookSectionStep | src/main/java/de/gerner/linuxcnc/hal/KiCad2HAL.java:184-247 | one more component appends its hook lines, or its failure ends the section |
| KiCad2Hal.Translator.BuildHookMap | src/main/java/de/gerner/linuxcnc/hal/KiCad2HAL.java:203-219 | the map built is the `addf` line of every `input` node put in node order, or the first failure |
| KiCad2Hal.Translator.FindOrderTokens | src/main/java/de/gerner/linuxcnc/hal/KiCad2HAL.java:221-230 | the tokens of the first field named `order` or `sequence` (ignoring case); none without such a field |
| KiCad2Hal.Translator.EmitHooks | src/main/java/de/gerner/linuxcnc/hal/KiCad2HAL.java:231-245 | appends the lines of the hooks in schedule order: per token the pending hooks it prefixes, then the rest in map order |
| KiCad2Hal.Translator.EmitMatching | src/main/java/de/gerner/linuxcnc/hal/KiCad2HAL.java:233-240 | appends, in map order, the lines of the pending hooks the token prefixes, and keeps exactly the others, in map order |
| KiCad2Hal.Translator.EmitRemaining | src/main/java/de/gerner/linuxcnc/hal/KiCad2HAL.java:244-245 | appends the lines of all pending hooks in map order |
| KiCad2Hal.Translator.PrintNetHooks | src/main/java/de/gerner/linuxcnc/hal/KiCad2HAL.java:191-245 | appends the net's hook lines when the thread is on the net, nothing otherwise; on failure nothing |
| KiCad2Hal.Translator.PrintComponentHooks | src/main/java/de/gerner/linuxcnc/hal/KiCad2HAL.java:184-246 | appends the hook lines of a thread component, nothing for any other part |
| KiCad2Hal.Translator.PrintThreadNets | src/main/java/de/gerner/linuxcnc/hal/KiCad2HAL.java:191-246 | appends the hook lines of the thread over all nets in net order; fails with the first failing net |
| KiCad2Hal.Translator.PrintThreads | src/main/java/de/gerner/linuxcnc/hal/KiCad2HAL.java:184-247 | appends the hook lines of every thread in component order; fails with the first failing thread |
| KiCad2Hal.Translator.PrintThreadHooks | src/main/java/de/gerner/linuxcnc/hal/KiCad2HAL.java:180-248 | appends the banner and the hook section; fails exactly when the hook section fails |
| Parameters.TargetName | src/main/java/de/gerner/linuxcnc/hal/KiCad2HAL.java:265-271 | the pin a `setp` line sets: the bare pin function for a `loadrt` part, the full name otherwise |
| Parameters.ParamRole | src/main/java/de/gerner/linuxcnc/hal/KiCad2HAL.java:261-272 | a `PARAMETER` symbol supplies its value; any other node supplies its target pin name; an unknown reference or unresolved pin fails |
| Parameters.SetpLine | src/main/java/de/gerner/linuxcnc/hal/KiCad2HAL.java:275 | `setp %-20s\t%s`: the pin name padded to 20, a tab, the value |
| Parameters.ParameterNetLines | src/main/java/de/gerner/linuxcnc/hal/KiCad2HAL.java:255-277 | the `setp` line of a net: only for a two-node net whose name does not start with `/`, and only when both a value and a pin were found; its meaning is the next row |
| Parameters.SetpIffOneParameter | src/main/java/de/gerner/linuxcnc/hal/KiCad2HAL.java:255-278 | a two-node unnamed net yields a `setp` line exactly when one node is a `PARAMETER` symbol and the other is not; the line sets that other pin (bare for `loadrt`, full name otherwise) to the symbol's value |
| Parameters.ParamRolesOfPair | src/main/java/de/gerner/linuxcnc/hal/KiCad2HAL.java:260-273 | the roles of a two-node net are the roles of its two nodes, in order |
| Parameters.LastOfPair | src/main/java/de/gerner/linuxcnc/hal/KiCad2HAL.java:260-273 | after two nodes, `value` and `pinName` hold the later node's contribution, else the earlier one's |
| Parameters.LastAfter | src/main/java/de/gerner/linuxcnc/hal/KiCad2HAL.java:262-271 | one more node overwrites `value` or `pinName` by its role and leaves the other unchanged |
| Parameters.ParamRolesStep | src/main/java/de/gerner/linuxcnc/hal/KiCad2HAL.java:260-273 | one more node adds its role, or its failure ends the net |
| Parameters.ParameterSection | src/main/java/de/gerner/linuxcnc/hal/KiCad2HAL.java:255-278 | the body of the parameter section: the `setp` lines of every net in net order, or the first failure |
| Parameters.ParameterSectionStep | src/main/java/de/gerner/linuxcnc/hal/KiCad2HAL.java:255-278 | one more net appends its `setp` line, or its failure ends the section |
| KiCad2Hal.Translator.PrintParameterNet | src/main/java/de/gerner/linuxcnc/hal/KiCad2HAL.java:256-277 | appends the net's `setp` line, if any; on failure nothing |
| KiCad2Hal.Translator.PrintParameters | src/main/java/de/gerner/linuxcnc/hal/KiCad2HAL.java:250-279 | appends the banner and the `setp` line of every parameter net in net order; fails exactly when some net fails |
| Wiring.IsOutput | src/main/java/de/gerner/linuxcnc/hal/KiCad2HAL.java:295 | a node drives its net exactly when its pin type is `output` |
| Wiring.OutputCount | src/main/java/de/gerner/linuxcnc/hal/KiCad2HAL.java:294-303 | the number of `output` nodes of the net |
| Wiring.NonOutputs | src/main/java/de/gerner/linuxcnc/hal/KiCad2HAL.java:294-306 | the nodes that are not `output`s, in node order: `inputNodes` |
| Wiring.Warnings | src/main/java/de/gerner/linuxcnc/hal/KiCad2HAL.java:296-301 | the multiple-outputs warning, once for each output after the first |
| Wiring.FirstOutput | src/main/java/de/gerner/linuxcnc/hal/KiCad2HAL.java:294-306 | the driver is the first `output` node; none exactly when the net has no `output` |
| Wiring.InputIndicesShape | src/main/java/de/gerner/linuxcnc/hal/KiCad2HAL.java:294-306 | the positions of the non-output nodes are in range, strictly increasing, and include every non-output position |
| Wiring.NonOutputsInOrder | src/main/java/de/gerner/linuxcnc/hal/KiCad2HAL.java:294-306 | the k-th driven pin is the node at the k-th non-output position of the net |
| Wiring.NodesPartition | src/main/java/de/gerner/linuxcnc/hal/KiCad2HAL.java:294-306 | every node is either an output or a driven pin; the driven pins are exactly the non-outputs, in net order; no output exactly when no driver |
| Wiring.ClassifyStep | src/main/java/de/gerner/linuxcnc/hal/KiCad2HAL.java:294-306 | one more node: the first output becomes the driver, a later output adds one warning, any other node joins the driven pins |
| Wiring.PinFullName | src/main/java/de/gerner/linuxcnc/hal/KiCad2HAL.java:322-324 | the full name of a driven pin: its component's value and its pin function; an unknown reference or unresolved pin fails |
| Wiring.DrivenPins | src/main/java/de/gerner/linuxcnc/hal/KiCad2HAL.java:321-327 | succeeds exactly when every driven pin resolves; then each entry is its pin's full name; otherwise the failure of the first pin that does not resolve |
| Wiring.DrivenPinsFailsAt | src/main/java/de/gerner/linuxcnc/hal/KiCad2HAL.java:321-327 | a pin loop stopping at its first unresolvable pin reports that pin's failure |
| Wiring.DrivenPinsAllOk | src/main/java/de/gerner/linuxcnc/hal/KiCad2HAL.java:321-327 | a pin loop resolving every pin yields exactly the resolved names |
| Wiring.JoinPinsAppend | src/main/java/de/gerner/linuxcnc/hal/KiCad2HAL.java:325-326 | each driven pin adds a space and its name to the end of the line |
| Wiring.DriverSegment | src/main/java/de/gerner/linuxcnc/hal/KiCad2HAL.java:313-320 | the driver part of the `net` line: nothing for a `PARAMETER` driver, otherwise ` <full name> =>`; an unknown driver or unresolved pin fails |
| Wiring.DriverSegmentShape | src/main/java/de/gerner/linuxcnc/hal/KiCad2HAL.java:313-320 | the driver segment is empty exactly for a `PARAMETER` driver; otherwise it is the driver's full pin name followed by `=>` |
| Wiring.NetLine | src/main/java/de/gerner/linuxcnc/hal/KiCad2HAL.java:312-328 | `net <name>`, then the driver part, then each driven pin after a space |
| Wiring.NetLineOf | src/main/java/de/gerner/linuxcnc/hal/KiCad2HAL.java:312-328 | the `net` line of a net with driver and driven pins: the driver is resolved first, then the driven pins in order; the first failure otherwise |
| Wiring.NetLineIsNotNote | src/main/java/de/gerner/linuxcnc/hal/KiCad2HAL.java:307-312 | a `net` line starts with `net `, the no-suitable-pins note does not |
| Wiring.UnsuitableNetNotes | src/main/java/de/gerner/linuxcnc/hal/KiCad2HAL.java:307-310 | a named net without driver or driven pin never fails: its warnings and the note |
| Wiring.WiringNetLines | src/main/java/de/gerner/linuxcnc/hal/KiCad2HAL.java:288-330 | the lines of one net: nothing for a net with fewer than two nodes or a name not starting with `/`; otherwise its warnings, then the note or the `net` line; its shape is the next row |
| Wiring.WiringNetShape | src/main/java/de/gerner/linuxcnc/hal/KiCad2HAL.java:288-330 | a named net prints one warning per output after the first, then one line: the note exactly when driver or driven pins are missing, the `net` line otherwise |
| Wiring.WiringSection | src/main/java/de/gerner/linuxcnc/hal/KiCad2HAL.java:288-330 | the body of the net section: the lines of every net in net order, or the first failure |
| Wiring.WiringSectionStep | src/main/java/de/gerner/linuxcnc/hal/KiCad2HAL.java:288-330 | one more net appends its lines, or its failure ends the section |
| Wiring.SignalOf | src/main/java/de/gerner/linuxcnc/hal/KiCad2HAL.java:307-316 | the driver of a net that gets a `net` line, when that driver is a `PARAMETER` symbol; none otherwise |
| Wiring.SignalTable | src/main/java/de/gerner/linuxcnc/hal/KiCad2HAL.java:287-315 | the signal map after all nets: each `PARAMETER`-driven net with a `net` line puts its driver under its full name; its properties are the next rows |
| Wiring.SignalTableStep | src/main/java/de/gerner/linuxcnc/hal/KiCad2HAL.java:313-315 | one more net records its driver under its full name when a `PARAMETER` symbol drives it, and changes nothing otherwise |
| Wiring.SignalTableKeys | src/main/java/de/gerner/linuxcnc/hal/KiCad2HAL.java:312-315 | the signal table has a key for exactly the names of nets that got a `net` line with a `PARAMETER` driver |
| Wiring.SignalTableLastWins | src/main/java/de/gerner/linuxcnc/hal/KiCad2HAL.java:315 | each signal is the driver of the last such net of that name |
| Wiring.SignalTableParams | src/main/java/de/gerner/linuxcnc/hal/KiCad2HAL.java:313-315 | every signal's driver is a node of an indexed `PARAMETER` symbol |
| Wiring.SetsLine | src/main/java/de/gerner/linuxcnc/hal/KiCad2HAL.java:336 | `sets %-20s %s`: the net name padded to 20, a space, the value |
| Wiring.SetsLines | src/main/java/de/gerner/linuxcnc/hal/KiCad2HAL.java:334-338 | the `sets` lines of the signal table, one per key in the given iteration order, each with its driver's value |
| Wiring.SetsLinesContent | src/main/java/de/gerner/linuxcnc/hal/KiCad2HAL.java:334-338 | one `sets` line per signal, in the iteration order, naming the net and carrying its symbol's value |
| Wiring.SetsLineAt | src/main/java/de/gerner/linuxcnc/hal/KiCad2HAL.java:334-338 | the i-th `sets` line is that of the i-th key of the iteration order |
| KiCad2Hal.Translator.ClassifyNodes | src/main/java/de/gerner/linuxcnc/hal/KiCad2HAL.java:292-306 | returns the first output and the non-outputs in order, and appends one warning per output after the first |
| KiCad2Hal.Translator.PrintNetLine | src/main/java/de/gerner/linuxcnc/hal/KiCad2HAL.java:311-329 | appends the `net` line, or the first failure and nothing; reports whether a `PARAMETER` symbol drives the net |
| KiCad2Hal.Translator.DriverText | src/main/java/de/gerner/linuxcnc/hal/KiCad2HAL.java:313-320 | the driver part of the line: empty for a `PARAMETER` driver, otherwise its full pin name and `=>`; an unknown driver or unresolved pin fails |
| KiCad2Hal.Translator.DrivenText | src/main/java/de/gerner/linuxcnc/hal/KiCad2HAL.java:321-327 | the driven pins, each after a space, exactly when every pin resolves; otherwise the failure of the first pin that does not |
| KiCad2Hal.Translator.PinText | src/main/java/de/gerner/linuxcnc/hal/KiCad2HAL.java:322-324 | the full name of a driven pin, or the failure of its lookup or of its pin function |
| KiCad2Hal.Translator.PrintWiringNet | src/main/java/de/gerner/linuxcnc/hal/KiCad2HAL.java:288-330 | appends the net's lines and returns its signal, if any |
| KiCad2Hal.Translator.PrintWiringNets | src/main/java/de/gerner/linuxcnc/hal/KiCad2HAL.java:287-330 | appends the lines of every net in net order and builds the signal table; fails with the first failing net |
| KiCad2Hal.Translator.PrintSignals | src/main/java/de/gerner/linuxcnc/hal/KiCad2HAL.java:334-338 | returns an iteration order of the signal table and appends its `sets` lines in that order |
| KiCad2Hal.Translator.PrintNetsAndSignals | src/main/java/de/gerner/linuxcnc/hal/KiCad2HAL.java:281-339 | appends the net banner and the net section, then the signal banner only when some signal exists, then the `sets` lines |
| KiCad2Hal.Translator.Translate | src/main/java/de/gerner/linuxcnc/hal/KiCad2HAL.java:444-448 | runs the sections in order; fails with the first failing section; on success the output is the five sections one after the other |

## Left out

- `main` (`KiCad2HAL.java:421-452`) is left out: argument checks, XML parsing and file creation
  are I/O and foreign libraries. `Translate` models only its sequence of section calls.
- `printHeader` is left out: it only copies design metadata into comments.
- The copies of the warnings written to the error stream are left out. Only the lines written
  to the output are modelled.
- `HashMap` iteration order is not modelled. It is any enumeration of the keys, returned as a
  ghost order.
- `java.util.Formatter` is not modelled beyond `%-Ns` (right padding with spaces) and `%d`
  (decimal digits). Output is modelled line by line; a line printed in pieces is one string.
- `Character.isDigit` and `equalsIgnoreCase` are modelled for ASCII only.
- The algorithm of `List.sort` is not modelled. It is modelled as a stable insertion sort,
  whose result any stable sort shares.
- Pins.FindInLibParts: a library part without a `<pins>` block is searched as an empty pin
  list, and the search goes on to later parts of that name. The Java code dereferences
  `getPins()` without a check (`KiCad2HAL.java:397`) and would throw. The same holds for the
  other XML elements the Java code reads without a check: the model treats them as present,
  or as empty lists.
- A component without a fields block is modelled with an empty field list. Both lead to no
  reordering of its hooks.
- KiCad2Hal.Translator.PrintModules: on failure, only states that lines were appended; the
  output printed before the exception is not described.
- KiCad2Hal.Translator.PrintThreadHooks: on failure, only states that lines were appended;
  the output printed before the exception is not described.
- KiCad2Hal.Translator.PrintParameters: on failure, only states that lines were appended; the
  output printed before the exception is not described.
- KiCad2Hal.Translator.PrintNetsAndSignals: on failure, only states that lines were appended;
  a partly printed `net` line and earlier warnings are not described.
- KiCad2Hal.Translator.PrintWiringNet: on failure, only states that lines were appended; the
  warnings printed before the exception are not described.
- KiCad2Hal.Translator.Translate: on failure, only states that lines were appended.
- KiCad2Hal.Translator.PrintNetLine: a line that fails is not appended at all; the Java code
  has already written `net <name>` and possibly the driver part when it throws.
- ModuleLoader.SortDesc compares keys with `>=`; the comparator's `i2 - i1` could overflow for
  large keys, which cannot happen since every `getNumber` key is 0.
