/**
  `TaskReportRenderer`: the flag-driven part of the task report. Its output is a
  sequence of abstract events: a blank line, a subheading (written by the
  superclass, whose layout and text styles are not modelled) or a line of text.
 */
module TaskReport {
  import opened Wrappers
  import GUtil
  import StringOrder

  datatype Event = Blank | Subheading(header: string) | Line(text: string)

  /** The renderer's four flags. */
  datatype Flags = Flags(hasTasks: bool, hasRules: bool, hasContent: bool, detail: bool)

  datatype TaskDetails = TaskDetails(path: string, description: Option<string>, dependencies: seq<string>)

  datatype Rule = Rule(description: Option<string>)

  /** The flags after an operation and what it wrote. */
  datatype Step = Step(flags: Flags, out: seq<Event>)

  const ALL_HINT := "To see all tasks and more detail, run with --all."
  const CHILD_PREFIX := "    "

  function Str(s: Option<string>): GUtil.Value {
    if s.Some? then GUtil.Str(s.value) else GUtil.Null
  }

  /** `StringUtils.capitalize` for ASCII letters: the first character upper-cased. */
  function Capitalize(s: string): (r: string)
    ensures |r| == |s| && (|s| > 0 ==> r[1..] == s[1..])
    ensures |s| > 0 && 'a' <= s[0] <= 'z' ==> r[0] == (s[0] as int - 32) as char
    ensures |s| > 0 && !('a' <= s[0] <= 'z') ==> r[0] == s[0]
  {
    if |s| == 0 then s
    else if 'a' <= s[0] <= 'z' then [(s[0] as int - 32) as char] + s[1..]
    else s
  }

  /** `startProject`: every flag cleared, `detail` included. */
  function StartProject(f: Flags): (r: Step)
    ensures !r.flags.hasTasks && !r.flags.hasRules && !r.flags.hasContent && !r.flags.detail
    ensures r.out == []
  {
    Step(Flags(false, false, false, false), [])
  }

  function ShowDetail(f: Flags, detail: bool): (r: Step)
    ensures r.flags == f.(detail := detail) && r.out == []
  {
    Step(f.(detail := detail), [])
  }

  /** `addDefaultTasks`: one line naming the default tasks, only if there are any. */
  function AddDefaultTasks(f: Flags, names: seq<string>): (r: Step)
    ensures |names| == 0 ==> r == Step(f, [])
    ensures |names| > 0 ==>
      r.flags == f.(hasContent := true)
      && r.out == [Line("Default tasks: " + GUtil.Join(names, Some(", ")))]
  {
    if |names| > 0 then
      Step(f.(hasContent := true), [Line("Default tasks: " + GUtil.Join(names, Some(", ")))])
    else Step(f, [])
  }

  /** `addSubheading`: a blank line first exactly when something was written already. */
  function AddSubheading(f: Flags, header: string): (r: Step)
    ensures r.flags == f.(hasContent := true)
    ensures |r.out| > 0 && r.out[|r.out| - 1] == Subheading(header)
    ensures Blank in r.out <==> f.hasContent
    ensures |r.out| == (if f.hasContent then 2 else 1)
    ensures f.hasContent ==> r.out[0] == Blank
  {
    Step(f.(hasContent := true), (if f.hasContent then [Blank] else []) + [Subheading(header)])
  }

  /** The heading of a task group: "Tasks" for a null or empty group name. */
  function GroupHeading(group: Option<string>): (h: string)
    ensures group == None || group == Some("") ==> h == "Tasks"
    ensures group.Some? && group.value != "" ==> h == Capitalize(group.value) + " tasks"
  {
    if !GUtil.IsTrue(Str(group)) then "Tasks" else Capitalize(group.value) + " tasks"
  }

  /** `startTaskGroup`: a subheading, and the project now has tasks. */
  function StartTaskGroup(f: Flags, group: Option<string>): (r: Step)
    ensures r.flags == f.(hasTasks := true, hasContent := true)
    ensures |r.out| > 0 && r.out[|r.out| - 1] == Subheading(GroupHeading(group))
    ensures Blank in r.out <==> f.hasContent
    ensures r.out == AddSubheading(f, GroupHeading(group)).out
  {
    var s := AddSubheading(f, GroupHeading(group));
    Step(s.flags.(hasTasks := true), s.out)
  }

  /** Dependency names in brackets, separated by commas. */
  function DependencyList(names: seq<string>): string {
    " [" + GUtil.Join(names, Some(", ")) + "]"
  }

  /** The dependency suffix of a detailed task line: sorted, de-duplicated, comma-separated. */
  function DependencyText(deps: seq<string>): (r: string)
    ensures deps == [] <==> r == ""
    ensures deps != [] ==>
      forall s :: StringOrder.SortedView(s, deps) ==> r == DependencyList(s)
  {
    var sorted := StringOrder.SortedSet(deps);
    StringOrder.SortedViewUnique(deps);
    if |sorted| > 0 then DependencyList(sorted)
    else
      StringOrder.FirstIsMember(deps);
      ""
  }

  /** A repeated dependency is listed once. */
  lemma DependencyTextRepeated()
    ensures DependencyText(["b", "b"]) == " [b]"
  {
    var deps, s := ["b", "b"], ["b"];
    assert StringOrder.StrictlySorted(s);
    assert forall y :: y in s <==> y in deps;
    assert StringOrder.SortedView(s, deps);
    assert GUtil.Join(s, Some(", ")) == "b";
  }

  /** Dependencies are listed in sorted order, whatever order they were declared in. */
  lemma DependencyTextSorted()
    ensures DependencyText(["b", "a"]) == " [a, b]"
  {
    var deps, s := ["b", "a"], ["a", "b"];
    assert StringOrder.Less("a", "b");
    assert StringOrder.StrictlySorted(s);
    assert forall y :: y in s <==> y in deps;
    assert StringOrder.SortedView(s, deps);
    assert GUtil.Join(s, Some(", ")) == "a, b" by {
      assert s[1..] == ["b"];
      assert GUtil.SeparatedTail(["b"], ", ") == ", b";
    }
  }

  /** The description part of a task line: ` - ` and the description, if it is non-empty. */
  function DescriptionText(description: Option<string>): (r: string)
    ensures description == None || description == Some("") ==> r == ""
    ensures description.Some? && description.value != "" ==> r == " - " + description.value
  {
    if GUtil.IsTrue(Str(description)) then " - " + description.value else ""
  }

  /** `writeTask`: the line for one task. */
  function TaskLine(f: Flags, task: TaskDetails, prefix: string): (line: string)
    ensures var head := prefix + task.path; |head| <= |line| && line[..|head|] == head
    ensures !f.detail && (task.description == None || task.description == Some(""))
      ==> line == prefix + task.path
    ensures !f.detail && task.description.Some? && task.description.value != ""
      ==> line == prefix + task.path + " - " + task.description.value
    ensures f.detail && task.dependencies == []
      ==> line == prefix + task.path + DescriptionText(task.description)
    ensures f.detail && task.dependencies != [] ==> forall s ::
      StringOrder.SortedView(s, task.dependencies)
      ==> line == prefix + task.path + DescriptionText(task.description) + DependencyList(s)
  {
    TaskLineParts(f, task, prefix);
    prefix + TaskText(f, task)
  }

  /** The parts of the text after the indentation stay in place behind it. */
  lemma TaskLineParts(f: Flags, task: TaskDetails, prefix: string)
    ensures var head, line := prefix + task.path, prefix + TaskText(f, task);
      |head| <= |line| && line[..|head|] == head
    ensures !f.detail || task.dependencies == []
      ==> prefix + TaskText(f, task) == prefix + task.path + DescriptionText(task.description)
    ensures f.detail && task.dependencies != [] ==> forall s ::
      StringOrder.SortedView(s, task.dependencies)
      ==> prefix + TaskText(f, task)
          == prefix + task.path + DescriptionText(task.description) + DependencyList(s)
  {
    var text, d := TaskText(f, task), DescriptionText(task.description);
    PrefixedHead(prefix, task.path, text);
    if f.detail && task.dependencies != [] {
      forall s | StringOrder.SortedView(s, task.dependencies)
        ensures prefix + text == prefix + task.path + d + DependencyList(s)
      {
        Prefixed3(prefix, text, task.path, d, DependencyList(s));
      }
    } else {
      Prefixed(prefix, task.path, d);
    }
  }

  lemma PrefixedHead(prefix: string, a: string, text: string)
    requires |a| <= |text| && text[..|a|] == a
    ensures (prefix + text)[..|prefix + a|] == prefix + a
  {
    assert (prefix + text)[..|prefix + a|] == prefix + text[..|a|];
  }

  lemma Prefixed(prefix: string, a: string, b: string)
    ensures prefix + (a + b) == prefix + a + b
  {
  }

  lemma Prefixed3(prefix: string, text: string, a: string, b: string, c: string)
    requires text == a + b + c
    ensures prefix + text == prefix + a + b + c
  {
  }

  /** Everything of a task line after the prefix: the path, then the description
      if it is non-empty, then in detail mode the dependencies if there are any. */
  function TaskText(f: Flags, task: TaskDetails): (r: string)
    ensures |task.path| <= |r| && r[..|task.path|] == task.path
    ensures !f.detail || task.dependencies == [] ==> r == task.path + DescriptionText(task.description)
    ensures f.detail && task.dependencies != [] ==> forall s ::
      StringOrder.SortedView(s, task.dependencies)
      ==> r == task.path + DescriptionText(task.description) + DependencyList(s)
  {
    var d, deps := DescriptionText(task.description), DependencyText(task.dependencies);
    task.path + d + (if f.detail then deps else "")
  }

  /** `addTask`: the task's line without indentation; no flag changes. */
  function AddTask(f: Flags, task: TaskDetails): (r: Step)
    ensures r.flags == f
    ensures r.out == [Line(TaskText(f, task))]
  {
    assert "" + TaskText(f, task) == TaskText(f, task);
    Step(f, [Line(TaskLine(f, task, ""))])
  }

  /** `addChildTask`: nothing unless in detail mode, then an indented line. */
  function AddChildTask(f: Flags, task: TaskDetails): (r: Step)
    ensures r.flags == f
    ensures !f.detail ==> r.out == []
    ensures f.detail ==> r.out == [Line(CHILD_PREFIX + TaskText(f, task))]
  {
    if f.detail then Step(f, [Line(TaskLine(f, task, CHILD_PREFIX))]) else Step(f, [])
  }

  /** `completeTasks`: "No tasks" exactly when no task group was started. */
  function CompleteTasks(f: Flags): (r: Step)
    ensures f.hasTasks ==> r == Step(f, [])
    ensures !f.hasTasks ==> r == Step(f.(hasContent := true), [Line("No tasks")])
  {
    if !f.hasTasks then Step(f.(hasContent := true), [Line("No tasks")]) else Step(f, [])
  }

  /** `addRule`: the "Rules" subheading before the first rule only, then the
      rule's description, a null one printed as the empty string. */
  function AddRule(f: Flags, rule: Rule): (r: Step)
    ensures r.flags == f.(hasRules := true, hasContent := f.hasContent || !f.hasRules)
    ensures |r.out| > 0 && r.out[|r.out| - 1] == Line(rule.description.GetOr(""))
    ensures Subheading("Rules") in r.out <==> !f.hasRules
    ensures |r.out| == (if f.hasRules then 1 else if f.hasContent then 3 else 2)
    ensures !f.hasRules && f.hasContent ==> r.out[0] == Blank
    ensures !f.hasRules ==> r.out[|r.out| - 2] == Subheading("Rules")
  {
    var s := if !f.hasRules then AddSubheading(f, "Rules") else Step(f, []);
    Step(s.flags.(hasRules := true), s.out + [Line(rule.description.GetOr(""))])
  }

  /** `complete`: the "--all" hint after a blank line, unless in detail mode. */
  function Complete(f: Flags): (r: Step)
    ensures r.flags == f
    ensures Line(ALL_HINT) in r.out <==> !f.detail
    ensures f.detail ==> r.out == []
    ensures !f.detail ==> |r.out| == 2 && r.out[0] == Blank
  {
    if !f.detail then Step(f, [Blank, Line(ALL_HINT)]) else Step(f, [])
  }

  // ---------------------------------------------------------------- sessions

  datatype Command =
    | StartProjectCmd
    | ShowDetailCmd(detail: bool)
    | AddDefaultTasksCmd(names: seq<string>)
    | StartTaskGroupCmd(group: Option<string>)
    | AddTaskCmd(task: TaskDetails)
    | AddChildTaskCmd(task: TaskDetails)
    | CompleteTasksCmd
    | AddRuleCmd(rule: Rule)
    | CompleteCmd

  function Apply(f: Flags, c: Command): Step {
    match c
    case StartProjectCmd => StartProject(f)
    case ShowDetailCmd(d) => ShowDetail(f, d)
    case AddDefaultTasksCmd(names) => AddDefaultTasks(f, names)
    case StartTaskGroupCmd(g) => StartTaskGroup(f, g)
    case AddTaskCmd(t) => AddTask(f, t)
    case AddChildTaskCmd(t) => AddChildTask(f, t)
    case CompleteTasksCmd => CompleteTasks(f)
    case AddRuleCmd(r) => AddRule(f, r)
    case CompleteCmd => Complete(f)
  }

  /** Runs commands in order, collecting everything written. */
  function Run(f: Flags, cmds: seq<Command>): Step
    decreases |cmds|
  {
    if |cmds| == 0 then Step(f, [])
    else
      var p := Run(f, cmds[..|cmds| - 1]);
      var q := Apply(p.flags, cmds[|cmds| - 1]);
      Step(q.flags, p.out + q.out)
  }

  /** Having tasks or rules implies having written content. */
  predicate Consistent(f: Flags) {
    (f.hasTasks || f.hasRules) ==> f.hasContent
  }

  /** Every operation keeps the flags consistent, and `startProject` establishes it. */
  lemma ApplyKeepsConsistent(f: Flags, c: Command)
    requires Consistent(f) || c.StartProjectCmd?
    ensures Consistent(Apply(f, c).flags)
  {
  }

  predicate NoStartProject(cmds: seq<Command>) {
    forall i :: 0 <= i < |cmds| ==> !cmds[i].StartProjectCmd?
  }

  function CountRulesHeadings(out: seq<Event>): nat
    decreases |out|
  {
    if |out| == 0 then 0
    else CountRulesHeadings(out[..|out| - 1]) + (if out[|out| - 1] == Subheading("Rules") then 1 else 0)
  }

  lemma {:induction false} CountRulesHeadingsAppend(a: seq<Event>, b: seq<Event>)
    ensures CountRulesHeadings(a + b) == CountRulesHeadings(a) + CountRulesHeadings(b)
    decreases |b|
  {
    if |b| > 0 {
      assert (a + b)[..|a + b| - 1] == a + b[..|b| - 1];
      CountRulesHeadingsAppend(a, b[..|b| - 1]);
    } else {
      assert a + b == a;
    }
  }

  predicate StartsGroup(cmds: seq<Command>) {
    exists i :: 0 <= i < |cmds| && cmds[i].StartTaskGroupCmd?
  }

  predicate AddsRule(cmds: seq<Command>) {
    exists i :: 0 <= i < |cmds| && cmds[i].AddRuleCmd?
  }

  lemma SnocCommands(cmds: seq<Command>)
    requires |cmds| > 0
    ensures var init := cmds[..|cmds| - 1]; var last := cmds[|cmds| - 1];
      && (StartsGroup(cmds) <==> StartsGroup(init) || last.StartTaskGroupCmd?)
      && (AddsRule(cmds) <==> AddsRule(init) || last.AddRuleCmd?)
      && (NoStartProject(cmds) ==> NoStartProject(init) && !last.StartProjectCmd?)
  {
    var init := cmds[..|cmds| - 1];
    assert forall i :: 0 <= i < |init| ==> init[i] == cmds[i];
  }

  /**
    Within one project (the commands after a `startProject`, none of them another
    `startProject`): the project has tasks exactly when a task group was started,
    it has rules exactly when a rule was added, and the "Rules" subheading was
    written once if there is a rule and never otherwise. So `completeTasks`
    writes "No tasks" exactly when no task group was started. Content is only
    ever recorded after something was written, so a subheading's blank line
    always separates it from earlier output.
   */
  lemma {:induction false} ProjectSession(f: Flags, cmds: seq<Command>)
    requires NoStartProject(cmds)
    ensures var r := Run(StartProject(f).flags, cmds);
      && Consistent(r.flags)
      && (r.flags.hasTasks <==> StartsGroup(cmds))
      && (r.flags.hasRules <==> AddsRule(cmds))
      && CountRulesHeadings(r.out) == (if r.flags.hasRules then 1 else 0)
      && (r.flags.hasContent ==> |r.out| > 0)
    decreases |cmds|
  {
    var f0 := StartProject(f).flags;
    if |cmds| > 0 {
      var init := cmds[..|cmds| - 1];
      var last := cmds[|cmds| - 1];
      SnocCommands(cmds);
      ProjectSession(f, init);
      var p := Run(f0, init);
      var q := Apply(p.flags, last);
      assert Run(f0, cmds) == Step(q.flags, p.out + q.out);
      ApplyKeepsConsistent(p.flags, last);
      CountRulesHeadingsAppend(p.out, q.out);
      ApplyRulesHeadings(p.flags, last);
      ApplyFlags(p.flags, last);
    }
  }

  /** `completeTasks` at any point of a project writes "No tasks" exactly when no
      task group was started since `startProject`, and nothing otherwise. */
  lemma NoTasksIffNoGroup(f: Flags, cmds: seq<Command>)
    requires NoStartProject(cmds)
    ensures var out := Apply(Run(StartProject(f).flags, cmds).flags, CompleteTasksCmd).out;
      && (out == [Line("No tasks")] <==> !StartsGroup(cmds))
      && (out == [] <==> StartsGroup(cmds))
  {
    ProjectSession(f, cmds);
  }

  /** How one command other than `startProject` moves the task and rule flags. */
  lemma ApplyFlags(fl: Flags, c: Command)
    requires !c.StartProjectCmd?
    ensures Apply(fl, c).flags.hasTasks <==> fl.hasTasks || c.StartTaskGroupCmd?
    ensures Apply(fl, c).flags.hasRules <==> fl.hasRules || c.AddRuleCmd?
    ensures Apply(fl, c).flags.hasContent ==> fl.hasContent || |Apply(fl, c).out| > 0
  {
  }

  /** Only the first rule of a project writes a "Rules" subheading. */
  lemma ApplyRulesHeadings(fl: Flags, c: Command)
    requires !c.StartProjectCmd?
    ensures CountRulesHeadings(Apply(fl, c).out) == if c.AddRuleCmd? && !fl.hasRules then 1 else 0
  {
    var q := Apply(fl, c);
    if c.AddRuleCmd? && !fl.hasRules {
      var line := Line(c.rule.description.GetOr(""));
      var sub := AddSubheading(fl, "Rules").out;
      assert q.out == sub + [line];
      CountRulesHeadingsAppend(sub, [line]);
      CountOne(line);
      if fl.hasContent {
        assert sub == [Blank] + [Subheading("Rules")];
        CountRulesHeadingsAppend([Blank], [Subheading("Rules")]);
        CountOne(Blank);
      }
      CountOne(Subheading("Rules"));
    } else if c.StartTaskGroupCmd? {
      var h := GroupHeading(c.group);
      GroupHeadingNotRules(c.group);
      if fl.hasContent {
        assert q.out == [Blank] + [Subheading(h)];
        CountRulesHeadingsAppend([Blank], [Subheading(h)]);
        CountOne(Blank);
      }
      CountOne(Subheading(h));
    } else if c.CompleteCmd? && !fl.detail {
      assert q.out == [Blank] + [Line(ALL_HINT)];
      CountRulesHeadingsAppend([Blank], [Line(ALL_HINT)]);
      CountOne(Blank);
      CountOne(Line(ALL_HINT));
    } else {
      assert forall e :: e in q.out ==> e.Line?;
      LinesHaveNoHeadings(q.out);
    }
  }

  lemma CountOne(e: Event)
    ensures CountRulesHeadings([e]) == if e == Subheading("Rules") then 1 else 0
  {
    assert [e][..0] == [];
  }

  lemma {:induction false} LinesHaveNoHeadings(out: seq<Event>)
    requires forall e :: e in out ==> e.Line?
    ensures CountRulesHeadings(out) == 0
    decreases |out|
  {
    if |out| > 0 {
      assert out[|out| - 1] in out;
      assert forall e :: e in out[..|out| - 1] ==> e in out;
      LinesHaveNoHeadings(out[..|out| - 1]);
    }
  }

  /** A group heading never reads "Rules": it always ends in "asks". */
  lemma GroupHeadingNotRules(group: Option<string>)
    ensures GroupHeading(group) != "Rules"
  {
    var h := GroupHeading(group);
    if h != "Tasks" {
      assert h[|h| - 1] == 's' && h[|h| - 2] == 'k';
    }
  }
}
