# Gradle dependency-settings core, modelled in Dafny

This project models a small core of an early Gradle build tool (Java) and proves
properties of the model:

- `DefaultSettingsConverter`, which turns the build's dependency resolvers into
  Ivy settings. It builds the user resolver chain (the internal repository first,
  then the project's resolvers), puts a client-module resolver in front of it in
  an outer chain named `clientModuleChain`, and registers every resolver with a
  fresh settings object. It shares one repository cache manager across every
  settings object it builds, and attaches its transfer listener to each
  repository once. The listener turns Ivy transfer events into progress-logger
  operations, with sizes rendered by `getLengthText`.
- `GUtil`: `flatten`, `join`, `isTrue`, `addToSet`, `addSets`, `addLists` and
  `addMaps`.
- `Clock`: elapsed time since construction or reset, and its
  `"h hrs m mins s.s secs"` rendering.
- `TaskReportRenderer`: the event stream of a `gradle tasks` report and the
  renderer's per-project flags.
- `BuildFileProjectSpec`: selecting a project by its build file.

Everything is pure. State that Java keeps in fields is passed in and returned.
This covers the converter's captured cache manager and pinned settings, the
repositories' listener lists, the binding of each cache manager to its settings,
the renderer's flags and the transfer listener's logger and total. The time
source is an integer `now` parameter. The identities that `new IvySettings()`
allocates are an `Allocation` parameter. Ivy's own classes are abstract records
(`Ivy.Resolver`, `Ivy.IvySettings`, `Ivy.World`) that keep only the fields the
converter reads or writes.

Modules: `Wrappers` (Option, Result, Java exception), `Text` (Java `long` to
decimal text and back), `StringOrder` (`String.compareTo` order and the
`TreeSet` view of a list), `GUtil`, `Clock`, `TaskReport`, `BuildFileSpec`,
`TransferProgress` (`getLengthText` and the transfer listener), `Ivy`, and
`SettingsConverter`.

Neither `convertForPublish` nor `convertForResolve` assigns the `ivySettings`
field; only `setIvySettings` does (DefaultSettingsConverter.java lines 72-103 and
177-179). So a convert call returns earlier settings only when they were
installed with `setIvySettings`; otherwise every call builds a new settings
object. `SettingsConverter.SuccessiveBuilds` and `SettingsConverter.SetSettingsPins`
state the two cases.

## Model

| member | source | states |
|---|---|---|
| SettingsConverter.New | subprojects/gradle-core/src/main/groovy/org/gradle/api/internal/artifacts/ivyservice/DefaultSettingsConverter.java:46-53 | a new converter has no captured cache manager and no settings |
| SettingsConverter.SetIvySettings | subprojects/gradle-core/src/main/groovy/org/gradle/api/internal/artifacts/ivyservice/DefaultSettingsConverter.java:173-179 | `getIvySettings` afterwards returns exactly what was set; the listener and the captured cache manager are untouched |
| SettingsConverter.GetIvySettingsAfterConvert | subprojects/gradle-core/src/main/groovy/org/gradle/api/internal/artifacts/ivyservice/DefaultSettingsConverter.java:173-179 | the getter returns nothing on a new converter, exactly what `setIvySettings` installed, and the same value after either convert call |
| SettingsConverter.AddMembers | subprojects/gradle-core/src/main/groovy/org/gradle/api/internal/artifacts/ivyservice/DefaultSettingsConverter.java:136-138 | adding resolvers one by one appends them, in order, to the chain's members; nothing else about the chain changes |
| SettingsConverter.UserResolverChain | subprojects/gradle-core/src/main/groovy/org/gradle/api/internal/artifacts/ivyservice/DefaultSettingsConverter.java:128-140 | the user chain is named `chain`, returns the first match, treats `.*-SNAPSHOT` (regexp matcher) as changing, and asks the internal repository before the given resolvers |
| SettingsConverter.ClientModuleResolver | subprojects/gradle-core/src/main/groovy/org/gradle/api/internal/artifacts/ivyservice/DefaultSettingsConverter.java:124-126 | the client-module resolver is named `clientModule`, holds the given registry and falls back to the user chain |
| SettingsConverter.OuterChain | subprojects/gradle-core/src/main/groovy/org/gradle/api/internal/artifacts/ivyservice/DefaultSettingsConverter.java:115-122 | the outer chain is named `clientModuleChain`, returns the first match, sets no changing pattern or matcher, and holds exactly the client-module resolver, then the user chain |
| SettingsConverter.AllResolvers | subprojects/gradle-core/src/main/groovy/org/gradle/api/internal/artifacts/ivyservice/DefaultSettingsConverter.java:105-113 | the registration list is the other resolvers, then the classpath resolvers, then internal, outer chain, client module and user chain |
| SettingsConverter.SetRepositoryCacheManager | subprojects/gradle-core/src/main/groovy/org/gradle/api/internal/artifacts/ivyservice/DefaultSettingsConverter.java:152-158 | the first settings' default cache manager is captured; later settings get the captured one installed; afterwards the converter always holds the settings' manager |
| SettingsConverter.CreateIvySettings | subprojects/gradle-core/src/main/groovy/org/gradle/api/internal/artifacts/ivyservice/DefaultSettingsConverter.java:142-150 | new settings with the cache directory `<home>/cache`, both cache patterns, `ivy.log.modules.in.use=false`, no resolvers, and the captured (or newly captured) cache manager |
| SettingsConverter.InitializeResolvers | subprojects/gradle-core/src/main/groovy/org/gradle/api/internal/artifacts/ivyservice/DefaultSettingsConverter.java:160-171 | every resolver is registered in order; each one's cache manager is bound to these settings and no other binding changes; the listener is appended to each repository lacking it and no other listener list changes |
| SettingsConverter.ListenerOnce | subprojects/gradle-core/src/main/groovy/org/gradle/api/internal/artifacts/ivyservice/DefaultSettingsConverter.java:164-168 | a repository that held the listener at most once holds it exactly once after registration |
| SettingsConverter.InitializeIdempotent | subprojects/gradle-core/src/main/groovy/org/gradle/api/internal/artifacts/ivyservice/DefaultSettingsConverter.java:166-167 | registering the same resolvers again leaves every listener list unchanged |
| SettingsConverter.Assemble | subprojects/gradle-core/src/main/groovy/org/gradle/api/internal/artifacts/ivyservice/DefaultSettingsConverter.java:98-100 | the registered list is exactly the given one, the default resolver is `clientModuleChain`, the settings are configured, the cache manager is captured or shared, the listener is attached and the cache managers are bound |
| SettingsConverter.BuildSpec | subprojects/gradle-core/src/main/groovy/org/gradle/api/internal/artifacts/ivyservice/DefaultSettingsConverter.java:93-100 | the shared build pipeline yields the registered-list layout, the default resolver, the cache settings, the cache-manager capture and the listener attachment |
| SettingsConverter.ConvertForPublish | subprojects/gradle-core/src/main/groovy/org/gradle/api/internal/artifacts/ivyservice/DefaultSettingsConverter.java:72-86 | with settings set, returns them and changes nothing; otherwise registers the publish resolvers, internal, outer chain, client module (empty registry) and a user chain of only the internal repository, with default resolver `clientModuleChain`; never writes the settings field |
| SettingsConverter.ConvertForResolve | subprojects/gradle-core/src/main/groovy/org/gradle/api/internal/artifacts/ivyservice/DefaultSettingsConverter.java:88-103 | with settings set, returns them and changes nothing; otherwise registers the dependency resolvers, internal, outer chain, client module and user chain (internal then the dependency resolvers), with default resolver `clientModuleChain`; never writes the settings field |
| SettingsConverter.ClientModuleComesFirst | subprojects/gradle-core/src/main/groovy/org/gradle/api/internal/artifacts/ivyservice/DefaultSettingsConverter.java:94-96 | in the registered outer chain the client-module resolver, holding the given registry, is consulted before the user chain and falls back to it; that chain starts with the internal repository |
| SettingsConverter.SetSettingsPins | subprojects/gradle-core/src/main/groovy/org/gradle/api/internal/artifacts/ivyservice/DefaultSettingsConverter.java:73-75 | after `setIvySettings(s)` both convert methods return `s`, whatever their arguments |
| SettingsConverter.SuccessiveBuilds | subprojects/gradle-core/src/main/groovy/org/gradle/api/internal/artifacts/ivyservice/DefaultSettingsConverter.java:152-158 | without installed settings, a resolve then a publish with fresh allocations return two different settings objects, each with its own allocation's identity, both using the cache manager the first one captured, which stays captured |
| SettingsConverter.RebuildAttachesOnce | subprojects/gradle-core/src/main/groovy/org/gradle/api/internal/artifacts/ivyservice/DefaultSettingsConverter.java:160-171 | a repository of a dependency resolver gains the listener on the first build and keeps its list unchanged on a second build |
| TransferProgress.LengthText | subprojects/gradle-core/src/main/groovy/org/gradle/api/internal/artifacts/ivyservice/DefaultSettingsConverter.java:59-70 | `unknown size` for no length; below 1024 the byte count and ` B`; below 1048576 whole kilobytes and ` KB`; otherwise megabytes with two decimals and ` MB` |
| TransferProgress.Hundredths | subprojects/gradle-core/src/main/groovy/org/gradle/api/internal/artifacts/ivyservice/DefaultSettingsConverter.java:68 | the two-decimal megabyte figure is the byte count in hundredths of a megabyte, rounded half up |
| TransferProgress.LengthTextReadsBack | subprojects/gradle-core/src/main/groovy/org/gradle/api/internal/artifacts/ivyservice/DefaultSettingsConverter.java:63-66 | the number in a ` B` text parses back to the byte count; the number in a ` KB` text parses back to k with k KB <= n < (k+1) KB |
| TransferProgress.ProgressTextTotalPart | subprojects/gradle-core/src/main/groovy/org/gradle/api/internal/artifacts/ivyservice/DefaultSettingsConverter.java:196 | after the running total's length text and the slash comes the total size's length text, then ` downloaded`; with no known size the message ends `/unknown size downloaded` |
| TransferProgress.ProgressText | subprojects/gradle-core/src/main/groovy/org/gradle/api/internal/artifacts/ivyservice/DefaultSettingsConverter.java:196 | the progress message starts with the running total's length text and a slash, and ends with ` downloaded` |
| TransferProgress.LengthTextByteExamples | subprojects/gradle-core/src/main/groovy/org/gradle/api/internal/artifacts/ivyservice/DefaultSettingsConverter.java:60-64 | `unknown size`, `500 B`, `1023 B` at the byte band and its edge |
| TransferProgress.LengthTextKilobyteExamples | subprojects/gradle-core/src/main/groovy/org/gradle/api/internal/artifacts/ivyservice/DefaultSettingsConverter.java:65-66 | `1 KB` at 1024 bytes, `2 KB` at 2048 and `1023 KB` just below a megabyte |
| TransferProgress.LengthTextMegabyteExamples | subprojects/gradle-core/src/main/groovy/org/gradle/api/internal/artifacts/ivyservice/DefaultSettingsConverter.java:67-68 | `1.00 MB` at exactly one megabyte and `5.00 MB` at five |
| TransferProgress.Transfer | subprojects/gradle-core/src/main/groovy/org/gradle/api/internal/artifacts/ivyservice/DefaultSettingsConverter.java:185-202 | local resources are ignored; a start resets the total and starts a new logger; progress adds the chunk length and reports it; completion or error completes the logger; progress, completion or error with no logger yet throws a null-pointer exception |
| TransferProgress.TotalSinceStart | subprojects/gradle-core/src/main/groovy/org/gradle/api/internal/artifacts/ivyservice/DefaultSettingsConverter.java:189-196 | after the last start, the total is the sum of the later remote progress lengths, and the logger is the one that start opened |
| TransferProgress.LocalTransfersInvisible | subprojects/gradle-core/src/main/groovy/org/gradle/api/internal/artifacts/ivyservice/DefaultSettingsConverter.java:186-188 | a run of local-resource events changes nothing and emits nothing |
| TransferProgress.ChunksReported | subprojects/gradle-core/src/main/groovy/org/gradle/api/internal/artifacts/ivyservice/DefaultSettingsConverter.java:189-197 | a start then progress chunks opens one logger, sends one progress message per chunk to it, and leaves the total at the chunks' sum |
| TransferProgress.DownloadSession | subprojects/gradle-core/src/main/groovy/org/gradle/api/internal/artifacts/ivyservice/DefaultSettingsConverter.java:185-202 | a whole download emits start, one message per chunk and completion, all on the same logger |
| GUtil.Flatten | src/main/groovy/org/gradle/util/GUtil.java:24-37 | keeps the accumulator as a prefix, appends only non-collection, non-map values, and appends exactly the leaves of the elements (as a multiset) |
| GUtil.FlattenInOrder | src/main/groovy/org/gradle/util/GUtil.java:24-37 | flattening appends, after the accumulator, the leaves in depth-first order: each collection's and map's contents in their iteration order, at the place the element stood |
| GUtil.FlattenElementInOrder | src/main/groovy/org/gradle/util/GUtil.java:28-34 | one element appends its own depth-first leaf order: a collection or map its contents', anything else itself |
| GUtil.FlattenNew | src/main/groovy/org/gradle/util/GUtil.java:39-41 | the result holds only leaves and exactly the leaves of the input |
| GUtil.FlattenNewInOrder | src/main/groovy/org/gradle/util/GUtil.java:39-41 | `flatten(elements)` is exactly the depth-first leaf order of the elements |
| GUtil.FlattenAccumulator | src/main/groovy/org/gradle/util/GUtil.java:24-37 | flattening into a list equals that list followed by flattening into an empty one |
| GUtil.FlattenFlat | src/main/groovy/org/gradle/util/GUtil.java:32-34 | a list of leaves flattens to itself |
| GUtil.FlattenIdempotent | src/main/groovy/org/gradle/util/GUtil.java:39-41 | flattening a flattened list changes nothing |
| GUtil.FlattenAppend | src/main/groovy/org/gradle/util/GUtil.java:25-35 | flattening a concatenation is flattening the second part onto the result of the first |
| GUtil.FlattenMapOrderIrrelevant | src/main/groovy/org/gradle/util/GUtil.java:30-31 | a map's values in any iteration order flatten to the same multiset |
| GUtil.JoinLength | src/main/groovy/org/gradle/util/GUtil.java:43-59 | the joined length is the sum of the element lengths plus one separator per gap |
| GUtil.Join | src/main/groovy/org/gradle/util/GUtil.java:43-59 | an empty collection joins to the empty string, a single element to itself, and otherwise the text starts with the first element |
| GUtil.JoinCons | src/main/groovy/org/gradle/util/GUtil.java:49-57 | the separator goes between elements, never before the first |
| GUtil.JoinNullSeparator | src/main/groovy/org/gradle/util/GUtil.java:47 | a null separator joins like the empty one |
| GUtil.JoinSplitRoundTrip | src/main/groovy/org/gradle/util/GUtil.java:43-59 | with a one-character separator absent from every element, splitting the joined text gives back the elements |
| GUtil.IsTrue | src/main/groovy/org/gradle/util/GUtil.java:61-71 | false exactly for null, an empty collection and an empty string |
| GUtil.JoinIsTrue | src/main/groovy/org/gradle/util/GUtil.java:43-71 | a join result is never null, so it is true unless empty |
| GUtil.AddToSet | src/main/groovy/org/gradle/util/GUtil.java:73-76 | the result contains the source and exactly the source's and the added collection's members |
| GUtil.AddSets | src/main/groovy/org/gradle/util/GUtil.java:78-83 | exactly the members of either set |
| GUtil.AddLists | src/main/groovy/org/gradle/util/GUtil.java:85-90 | the first list's elements in order, then the second's |
| GUtil.AddMaps | src/main/groovy/org/gradle/util/GUtil.java:92-97 | keys of both maps; the second map's value wins on a shared key |
| GUtil.AddToSetIsAddSets | src/main/groovy/org/gradle/util/GUtil.java:73-83 | adding a collection to a set equals the union with the collection's members |
| GUtil.AddMapsDisjointCommutes | src/main/groovy/org/gradle/util/GUtil.java:92-97 | on disjoint key sets the merge does not depend on argument order |
| Clock.New | subprojects/gradle-core/src/main/groovy/org/gradle/util/Clock.java:29-36 | a new clock reads 0 ms at construction and `later - now` afterwards |
| Clock.Reset | subprojects/gradle-core/src/main/groovy/org/gradle/util/Clock.java:55-57 | after a reset the clock reads 0 ms, and `later - now` afterwards |
| Clock.ElapsedTracksProvider | subprojects/gradle-core/src/main/groovy/org/gradle/util/Clock.java:51-53 | the difference of two readings is the difference of the provider's times |
| Clock.TimeInMs | subprojects/gradle-core/src/main/groovy/org/gradle/util/Clock.java:51-53 | the reading is 0 exactly when the current time is the start time, and positive once time has advanced past it |
| Clock.JavaRem | subprojects/gradle-core/src/main/groovy/org/gradle/util/Clock.java:45-47 | Java's remainder: the quotient identity holds, the magnitude is below the divisor, and the sign follows the dividend |
| Clock.TimeSegments | subprojects/gradle-core/src/main/groovy/org/gradle/util/Clock.java:38-49 | an hours segment appears exactly above one hour, a minutes segment exactly above one minute, minutes are below 60 and seconds below one minute |
| Clock.RecombineAsWritten | subprojects/gradle-core/src/main/groovy/org/gradle/util/Clock.java:41-47 | for non-negative times, the segments add back up to the time except at exactly one minute and exactly one hour |
| Clock.BoundaryLosesTime | subprojects/gradle-core/src/main/groovy/org/gradle/util/Clock.java:41-47 | at exactly 60000 ms and 3600000 ms the written segments add up to 0 |
| Clock.TimeSegmentsCorrected | subprojects/gradle-core/src/main/groovy/org/gradle/util/Clock.java:41-45 | with inclusive thresholds, hours appear from one hour on and minutes from one minute on |
| Clock.RecombineCorrected | subprojects/gradle-core/src/main/groovy/org/gradle/util/Clock.java:41-47 | with inclusive thresholds, the segments add back up to every non-negative time |
| Clock.CorrectedDiffersOnlyAtBoundaries | subprojects/gradle-core/src/main/groovy/org/gradle/util/Clock.java:41-44 | the corrected and written segmentations differ exactly at one minute and one hour |
| Clock.FractionDigits | subprojects/gradle-core/src/main/groovy/org/gradle/util/Clock.java:47 | the fractional digits of the seconds are 1 to 3 digits with no trailing zero beyond the first |
| Clock.GetTime | subprojects/gradle-core/src/main/groovy/org/gradle/util/Clock.java:38-49 | the text ends with ` secs`, and above one hour it starts with the hour count and ` hrs ` |
| Clock.GetTimeSecondsBand | subprojects/gradle-core/src/main/groovy/org/gradle/util/Clock.java:38-49 | from 0 up to one minute inclusive the text is only the seconds of the minute and ` secs` |
| Clock.GetTimeMinutesBand | subprojects/gradle-core/src/main/groovy/org/gradle/util/Clock.java:38-49 | above one minute up to one hour inclusive the text is the minutes of the hour, ` mins `, the seconds of the minute and ` secs`; at exactly one hour the minutes are 0 |
| Clock.GetTimeHoursBand | subprojects/gradle-core/src/main/groovy/org/gradle/util/Clock.java:38-49 | above one hour the text is the hours, ` hrs `, the minutes of the hour, ` mins `, the seconds of the minute and ` secs` |
| Clock.GetTimeAtMinute | subprojects/gradle-core/src/main/groovy/org/gradle/util/Clock.java:44-47 | exactly one minute renders `0.0 secs` |
| Clock.GetTimeAtHour | subprojects/gradle-core/src/main/groovy/org/gradle/util/Clock.java:41-47 | exactly one hour renders `0 mins 0.0 secs` |
| Clock.GetTimePastMinute | subprojects/gradle-core/src/main/groovy/org/gradle/util/Clock.java:44-47 | 61500 ms renders `1 mins 1.5 secs` |
| Clock.GetTimeCorrected | subprojects/gradle-core/src/main/groovy/org/gradle/util/Clock.java:38-49 | with inclusive thresholds the text still ends with ` secs`, and from one hour on it starts with the hour count and ` hrs ` |
| Clock.GetTimeCorrectedSecondsBand | subprojects/gradle-core/src/main/groovy/org/gradle/util/Clock.java:38-49 | with inclusive thresholds, below one minute the text is only the seconds and ` secs` |
| Clock.GetTimeCorrectedMinutesBand | subprojects/gradle-core/src/main/groovy/org/gradle/util/Clock.java:38-49 | with inclusive thresholds, from one minute to below one hour the text is the minutes of the hour, ` mins `, the seconds of the minute and ` secs` |
| Clock.GetTimeCorrectedHoursBand | subprojects/gradle-core/src/main/groovy/org/gradle/util/Clock.java:38-49 | with inclusive thresholds, from one hour on the text is the hours, ` hrs `, the minutes of the hour, ` mins `, the seconds of the minute and ` secs` |
| Clock.GetTimeCorrectedAtMinute | subprojects/gradle-core/src/main/groovy/org/gradle/util/Clock.java:44-47 | with inclusive thresholds one minute renders `1 mins 0.0 secs` |
| Clock.GetTimeCorrectedAtHour | subprojects/gradle-core/src/main/groovy/org/gradle/util/Clock.java:41-47 | with inclusive thresholds one hour renders `1 hrs 0 mins 0.0 secs` |
| TaskReport.StartProject | subprojects/gradle-core/src/main/groovy/org/gradle/api/tasks/diagnostics/internal/TaskReportRenderer.java:42-49 | all four flags are cleared and nothing is written |
| TaskReport.ShowDetail | subprojects/gradle-core/src/main/groovy/org/gradle/api/tasks/diagnostics/internal/TaskReportRenderer.java:51-53 | only the detail flag changes |
| TaskReport.AddDefaultTasks | subprojects/gradle-core/src/main/groovy/org/gradle/api/tasks/diagnostics/internal/TaskReportRenderer.java:60-65 | nothing for no names; otherwise one `Default tasks: ` line with the names joined by `, `, and content is marked |
| TaskReport.AddSubheading | subprojects/gradle-core/src/main/groovy/org/gradle/api/tasks/diagnostics/internal/TaskReportRenderer.java:109-115 | the output is the header alone, or a blank line then the header exactly when content was already written; content is then marked |
| TaskReport.GroupHeading | subprojects/gradle-core/src/main/groovy/org/gradle/api/tasks/diagnostics/internal/TaskReportRenderer.java:68-72 | `Tasks` for a null or empty group, otherwise the capitalized group and ` tasks` |
| TaskReport.Capitalize | subprojects/gradle-core/src/main/groovy/org/gradle/api/tasks/diagnostics/internal/TaskReportRenderer.java:71 | only the first character changes, and only a lower-case ASCII letter becomes upper case |
| TaskReport.StartTaskGroup | subprojects/gradle-core/src/main/groovy/org/gradle/api/tasks/diagnostics/internal/TaskReportRenderer.java:67-74 | writes exactly what `addSubheading` writes for the group heading, and marks that the project has tasks |
| TaskReport.DependencyText | subprojects/gradle-core/src/main/groovy/org/gradle/api/tasks/diagnostics/internal/TaskReportRenderer.java:98-104 | empty exactly when there are no dependencies; otherwise ` [`, the dependencies' names once each in increasing order joined by `, `, and `]`, for any list that is strictly sorted and has exactly the dependencies as members |
| TaskReport.DependencyTextRepeated | subprojects/gradle-core/src/main/groovy/org/gradle/api/tasks/diagnostics/internal/TaskReportRenderer.java:98-104 | a dependency named twice is listed once: ` [b]` |
| TaskReport.DependencyTextSorted | subprojects/gradle-core/src/main/groovy/org/gradle/api/tasks/diagnostics/internal/TaskReportRenderer.java:98-104 | dependencies declared as `b`, `a` are listed ` [a, b]` |
| TaskReport.DescriptionText | subprojects/gradle-core/src/main/groovy/org/gradle/api/tasks/diagnostics/internal/TaskReportRenderer.java:94-96 | ` - ` and the description when it is non-null and non-empty, and nothing otherwise |
| TaskReport.TaskLine | subprojects/gradle-core/src/main/groovy/org/gradle/api/tasks/diagnostics/internal/TaskReportRenderer.java:91-107 | a task line starts with the prefix and the path, then ` - ` and the description when there is one; with detail, the sorted dependency list follows when the task has dependencies |
| TaskReport.TaskText | subprojects/gradle-core/src/main/groovy/org/gradle/api/tasks/diagnostics/internal/TaskReportRenderer.java:93-105 | after the indentation: the path, the description part, and in detail mode the sorted dependency list when there are dependencies; nothing else |
| TaskReport.AddTask | subprojects/gradle-core/src/main/groovy/org/gradle/api/tasks/diagnostics/internal/TaskReportRenderer.java:81-83 | one unindented task line and no flag change |
| TaskReport.AddChildTask | subprojects/gradle-core/src/main/groovy/org/gradle/api/tasks/diagnostics/internal/TaskReportRenderer.java:85-89 | nothing without detail; with detail one task line indented by four spaces |
| TaskReport.CompleteTasks | subprojects/gradle-core/src/main/groovy/org/gradle/api/tasks/diagnostics/internal/TaskReportRenderer.java:120-125 | `No tasks` exactly when no task group was started, marking content; nothing otherwise |
| TaskReport.AddRule | subprojects/gradle-core/src/main/groovy/org/gradle/api/tasks/diagnostics/internal/TaskReportRenderer.java:132-138 | before the first rule: a blank line if content was written, the `Rules` subheading, then the rule's description (empty when null); for later rules only the description |
| TaskReport.Complete | subprojects/gradle-core/src/main/groovy/org/gradle/api/tasks/diagnostics/internal/TaskReportRenderer.java:141-148 | without detail, a blank line then the `--all` hint; with detail, nothing |
| TaskReport.ApplyKeepsConsistent | subprojects/gradle-core/src/main/groovy/org/gradle/api/tasks/diagnostics/internal/TaskReportRenderer.java:37-40 | a project with tasks or rules has always written content; every operation keeps that |
| TaskReport.ProjectSession | subprojects/gradle-core/src/main/groovy/org/gradle/api/tasks/diagnostics/internal/TaskReportRenderer.java:42-138 | within one project, the has-tasks flag is set exactly when a group was started, the has-rules flag exactly when a rule was added, and the `Rules` heading appears once if there are rules and never otherwise |
| TaskReport.NoTasksIffNoGroup | subprojects/gradle-core/src/main/groovy/org/gradle/api/tasks/diagnostics/internal/TaskReportRenderer.java:120-125 | at any point of a project, `completeTasks` writes `No tasks` exactly when no group was started |
| TaskReport.GroupHeadingNotRules | subprojects/gradle-core/src/main/groovy/org/gradle/api/tasks/diagnostics/internal/TaskReportRenderer.java:67-72 | a task-group heading is never the `Rules` heading |
| StringOrder.SortedSet | subprojects/gradle-core/src/main/groovy/org/gradle/api/tasks/diagnostics/internal/TaskReportRenderer.java:98-101 | the tree-set view of the dependencies is strictly sorted and holds exactly their distinct members |
| StringOrder.SortedSetOrderIndependent | subprojects/gradle-core/src/main/groovy/org/gradle/api/tasks/diagnostics/internal/TaskReportRenderer.java:98-101 | the listed dependencies do not depend on the order or repetition of the task's dependencies |
| StringOrder.SortedViewUnique | subprojects/gradle-core/src/main/groovy/org/gradle/api/tasks/diagnostics/internal/TaskReportRenderer.java:98-101 | the tree-set view is the only list of the dependencies that is strictly sorted and has exactly their members |
| StringOrder.LessTransitive | subprojects/gradle-core/src/main/groovy/org/gradle/api/tasks/diagnostics/internal/TaskReportRenderer.java:98 | string order is transitive |
| StringOrder.LessTotal | subprojects/gradle-core/src/main/groovy/org/gradle/api/tasks/diagnostics/internal/TaskReportRenderer.java:98 | distinct strings are ordered one way or the other |
| StringOrder.Less | subprojects/gradle-core/src/main/groovy/org/gradle/api/tasks/diagnostics/internal/TaskReportRenderer.java:98 | string order is irreflexive, and a proper prefix comes before the longer string |
| BuildFileSpec.Description | src/main/groovy/org/gradle/initialization/BuildFileProjectSpec.java:31-33 | the description is `with build file '`, the file's text, and a closing quote |
| BuildFileSpec.IsSatisfiedBy | src/main/groovy/org/gradle/initialization/BuildFileProjectSpec.java:35-37 | throws a null-pointer exception exactly when the spec's file is null; otherwise true exactly when the project's build file equals it |
| BuildFileSpec.Equals | src/main/groovy/org/gradle/initialization/BuildFileProjectSpec.java:39-41 | equal exactly to another spec with the same build file |
| BuildFileSpec.EqualsIsEquivalence | src/main/groovy/org/gradle/initialization/BuildFileProjectSpec.java:39-41 | equality is reflexive and symmetric, means same build file, and rejects null and every object of another class |
| BuildFileSpec.HashConsistentWithEquals | src/main/groovy/org/gradle/initialization/BuildFileProjectSpec.java:39-45 | equal specs have equal hash codes |
| BuildFileSpec.HashCode | src/main/groovy/org/gradle/initialization/BuildFileProjectSpec.java:43-45 | a spec with no build file hashes to 17 * 37 = 629; a spec with a file hashes to 629 exactly when the file's hash (path hash XOR 1234321) is 0 |
| BuildFileSpec.EqualSpecsSelectAlike | src/main/groovy/org/gradle/initialization/BuildFileProjectSpec.java:35-41 | equal specs select the same projects |
| BuildFileSpec.SatisfiedIffSameFile | src/main/groovy/org/gradle/initialization/BuildFileProjectSpec.java:35-37 | a spec with a file selects exactly the projects with that build file |
| Text.IntToStringRoundTrip | subprojects/gradle-core/src/main/groovy/org/gradle/api/internal/artifacts/ivyservice/DefaultSettingsConverter.java:64 | the decimal text of a `long` parses back to it |

## Left out

- Ivy's internals are not modelled. That covers chain querying, client-module lookup, the name map kept by `IvySettings.addResolver`, and the registration of nested chain members. A resolver without its own cache manager is assumed to use the settings' default one.
- The cast to `DefaultRepositoryCacheManager` in `initializeResolvers` is not modelled. A resolver with a different kind of cache manager would throw a `ClassCastException` there.
- Null arguments to the convert methods are not modelled. In Java a null resolver list throws a null-pointer exception: `convertForResolve` throws in the loop that fills the user chain (DefaultSettingsConverter.java line 136), and `convertForPublish` throws in `new ArrayList` of the list (line 109). A null internal repository throws when the registration loop reaches it (lines 162-163). A null Gradle user home throws nothing: `new File(null, "cache")` is the relative directory `cache` (line 144). The model's `home + "/cache"` does not give that directory.
- The debug timing log in both convert methods and the `Download <name>` lifecycle message are I/O and are left out. The model records the progress-logger operations and their messages.
- `new File(home, "cache")` is modelled as `home + "/cache"`, without path normalisation or platform separators.
- The resolver names `CHAIN_RESOLVER_NAME`, `CLIENT_MODULE_NAME` and `CLIENT_MODULE_CHAIN_NAME`, and `ResolverContainer.DEFAULT_CACHE_DIR_NAME`, `DEFAULT_CACHE_IVY_PATTERN` and `DEFAULT_CACHE_ARTIFACT_PATTERN`, are declared in files that are not part of this model. The model assumes the values `chain`, `clientModule`, `clientModuleChain`, `cache` and Ivy's default cache patterns. The rows that name `chain`, `clientModule`, `clientModuleChain` or `<home>/cache` state properties of these assumed values.
- TransferProgress.Transfer: the `long` running total is unbounded, so 64-bit wrap-around is not modelled.
- Clock.GetTime: 64-bit overflow of the elapsed time is not modelled. The seconds text is exact decimal, which matches `Double.toString` for the values below one minute that this code produces.
- TransferProgress.LengthText: the megabyte text is the exact quotient rounded half up to hundredths. `String.format("%.2f")` rounds the shortest decimal text of the `double` quotient half up instead. The two agree below 2^49 bytes, and only with a locale whose decimal separator is `.`. From 2^49 bytes on they can differ by one hundredth.
- StringOrder.Less: compares by code point. Java's `compareTo` compares UTF-16 code units, which differs only for characters outside the Basic Multilingual Plane.
- BuildFileSpec.HashCode: uses the commons-lang `HashCodeBuilder` formula with `File.hashCode` on Unix (path hash XOR 1234321). Other platforms hash the path differently. A character outside the Basic Multilingual Plane is hashed once, as its code point; Java hashes its two UTF-16 surrogates, so such paths hash differently.
- TaskReport.Capitalize: changes only ASCII lower-case letters. `StringUtils.capitalize` uses `Character.toTitleCase`, which also maps other scripts.
- The styles of the styled text output (`Identifier`, `Description`, `Info`, `UserInput`) are left out; the model keeps the text and the line structure. The superclass `TextReportRenderer` output for the project header is left out.
- `GUtil.elvis` in `addRule` is not part of this model; it is taken as "the description, or the empty string when it is null".
- `GUtil.join` calls `toString` on each element, and a null element throws. The model joins strings only.
- `HashMap` and `HashSet` iteration order is not modelled. Maps are flattened in a given order of values, and `GUtil.FlattenMapOrderIrrelevant` shows the multiset of results does not depend on that order.
- The transfer listener's state after an exception is not modelled: a run stops at the first thrown exception.
- Concurrency is left out; the code has none of its own.

## Findings

| source | as written | input that shows it | evidently intended | confidence | as-written member | corrected member |
|---|---|---|---|---|---|---|
| subprojects/gradle-core/src/main/groovy/org/gradle/util/Clock.java:41-47 | `getTime` shows hours only when the time is strictly above one hour, and minutes only when strictly above one minute | 60000 ms renders as `0.0 secs`; 3600000 ms renders as `0 mins 0.0 secs` | `>=`, so that 60000 ms is `1 mins 0.0 secs` and the segments always add up to the elapsed time | medium, not executed | Clock.RecombineAsWritten | Clock.GetTimeCorrected |
