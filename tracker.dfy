/**
 * The page's store layer: the three files the tracker keeps and the
 * checklist it holds in memory while a page run lasts. Widget values
 * (the text typed, the item picked, the boxes ticked) and today's date
 * arrive as method parameters; each method is the action a button press
 * triggers.
 */
module Tracker {
  import opened Options
  import opened Text
  import opened Checklist
  import opened Logs

  /** The choices of the delete drop-down: the placeholder, then every label. */
  function DeleteOptions(items: seq<string>): (options: seq<string>)
    ensures |options| == |items| + 1 && options[0] == Sentinel
    ensures forall x :: x in options <==> x == Sentinel || x in items
  {
    [Sentinel] + items
  }

  class Store {
    /** The checklist file: absent, or its text. */
    var checklistFile: Option<string>
    /** The daily log: absent, or the rows written to it. */
    var dailyLog: Option<seq<Row>>
    /** The work log: absent, or the rows written to it. */
    var workLog: Option<seq<Row>>
    /** `checklist_items`: the labels the page works with. */
    var items: seq<string>

    /** A page run starts from whatever the disk holds, before the checklist is loaded. */
    constructor (checklistFile: Option<string>, dailyLog: Option<seq<Row>>, workLog: Option<seq<Row>>)
      ensures this.checklistFile == checklistFile && this.dailyLog == dailyLog && this.workLog == workLog
      ensures items == []
    {
      this.checklistFile := checklistFile;
      this.dailyLog := dailyLog;
      this.workLog := workLog;
      items := [];
    }

    /** The checklist in memory is exactly what loading the checklist file again would give. */
    ghost predicate Consistent()
      reads this
    {
      checklistFile.Some? && ParseChecklist(checklistFile.value) == items
    }

    /** `save_checklist`: truncate the file, then write one label and a newline per item. */
    method SaveChecklist(list: seq<string>)
      modifies this`checklistFile
      ensures checklistFile == Some(Serialize(list))
    {
      checklistFile := Some("");
      var i := 0;
      while i < |list|
        invariant 0 <= i <= |list|
        invariant checklistFile == Some(Serialize(list[..i]))
      {
        SerializeSnoc(list[..i], list[i]);
        assert list[..i + 1] == list[..i] + [list[i]];
        checklistFile := Some(checklistFile.value + list[i] + "\n");
        i := i + 1;
      }
      assert list[..|list|] == list;
    }

    /**
     * `load_checklist`: an existing file is parsed; an absent one is created
     * holding the default labels, which become the checklist. Either way the
     * checklist and the file agree afterwards.
     */
    method LoadChecklist()
      modifies this`checklistFile, this`items
      ensures old(checklistFile).Some? ==>
        items == ParseChecklist(old(checklistFile).value) && checklistFile == old(checklistFile)
      ensures old(checklistFile).None? ==>
        items == Defaults && checklistFile == Some(Serialize(Defaults))
      ensures Consistent()
    {
      if checklistFile.Some? {
        items := ParseChecklist(checklistFile.value);
      } else {
        SaveChecklist(Defaults);
        items := Defaults;
        DefaultsWellFormed();
      }
    }

    /**
     * The Add button: whitespace-only input changes nothing; otherwise the
     * stripped input becomes the last label, duplicates allowed, and the
     * whole list is written back.
     */
    method AddItem(input: string)
      modifies this`checklistFile, this`items
      ensures AllSpace(input) ==> items == old(items) && checklistFile == old(checklistFile)
      ensures !AllSpace(input) ==>
        items == old(items) + [Strip(input)] && checklistFile == Some(Serialize(items))
      ensures old(Consistent()) && NoLineBreak(input) ==> Consistent()
    {
      ghost var wasConsistent := Consistent();
      var entry := Strip(input);
      if entry != [] {
        items := items + [entry];
        SaveChecklist(items);
        if wasConsistent && NoLineBreak(input) {
          StripNoLineBreak(input);
          assert AllWellFormed(items) by {
            assert forall i :: 0 <= i < |items| - 1 ==> items[i] == old(items)[i];
          }
          RoundTrip(items);
        }
      }
    }

    /**
     * The Delete button: the placeholder changes nothing; any other choice
     * is a label of the list, and its first occurrence is removed and the
     * whole list written back.
     */
    method DeleteItem(selected: string)
      requires selected in DeleteOptions(items)
      modifies this`checklistFile, this`items
      ensures selected == Sentinel ==> items == old(items) && checklistFile == old(checklistFile)
      ensures selected != Sentinel ==>
        selected in old(items) && items == RemoveFirst(old(items), selected) &&
        checklistFile == Some(Serialize(items))
      ensures old(Consistent()) ==> Consistent()
    {
      ghost var wasConsistent := Consistent();
      if selected != Sentinel {
        assert selected in items;
        items := RemoveFirst(items, selected);
        SaveChecklist(items);
        if wasConsistent {
          RemoveFirstWellFormed(old(items), selected);
          RoundTrip(items);
        }
      }
    }

    /**
     * `save_to_csv`: opening the daily log for appending creates it when
     * absent, in which case the header goes in first; then the data row.
     */
    method SaveDaily(date: string, responses: Dict, notes: string)
      modifies this`dailyLog
      ensures dailyLog == AppendRow(old(dailyLog), DailyHeader(responses), DailyRow(date, responses, notes))
    {
      var rows: seq<Row> := [];
      if dailyLog.Some? {
        rows := dailyLog.value;
      } else {
        rows := [DailyHeader(responses)];
      }
      rows := rows + [DailyRow(date, responses, notes)];
      assert old(dailyLog).None? ==> rows == [DailyHeader(responses), DailyRow(date, responses, notes)];
      dailyLog := Some(rows);
    }

    /**
     * `save_work_log`: whitespace-only text leaves the work log as it is,
     * absent or not; otherwise the stripped text is appended under a header
     * written only when the file is new.
     */
    method SaveWork(date: string, note: string)
      modifies this`workLog
      ensures AllSpace(note) ==> workLog == old(workLog)
      ensures !AllSpace(note) ==> workLog == AppendRow(old(workLog), WorkHeader, WorkRow(date, note))
    {
      if Strip(note) != [] {
        var rows: seq<Row> := [];
        if workLog.Some? {
          rows := workLog.value;
        } else {
          rows := [WorkHeader];
        }
        rows := rows + [[Str(date), Str(Strip(note))]];
        assert old(workLog).None? ==> rows == [WorkHeader, WorkRow(date, note)];
        workLog := Some(rows);
      }
    }

    /**
     * The Save button: the dict built from the ticked boxes goes to the
     * daily log with the journal text, then the work text to the work log.
     * The checklist is not touched.
     */
    method SaveTodaysLog(date: string, checked: seq<bool>, journal: string, work: string)
      requires |checked| == |items|
      modifies this`dailyLog, this`workLog
      ensures var responses := ResponsesOf(items, checked);
        dailyLog == AppendRow(old(dailyLog), DailyHeader(responses), DailyRow(date, responses, journal))
      ensures AllSpace(work) ==> workLog == old(workLog)
      ensures !AllSpace(work) ==> workLog == AppendRow(old(workLog), WorkHeader, WorkRow(date, work))
    {
      var responses := BuildResponses(items, checked);
      SaveDaily(date, responses, journal);
      SaveWork(date, work);
    }

    /**
     * Adding a single-line entry and then rerunning the page, which loads
     * the checklist file again, leaves the extended list in memory and on disk.
     */
    method AddAndReload(input: string)
      requires Consistent() && !AllSpace(input) && NoLineBreak(input)
      modifies this`checklistFile, this`items
      ensures items == old(items) + [Strip(input)]
      ensures checklistFile == Some(Serialize(items)) && Consistent()
    {
      AddItem(input);
      LoadChecklist();
    }

    /**
     * Adding single-line input, rerunning, then deleting the new label: the
     * file in between holds the extended list; afterwards the placeholder's
     * text stays, and any other label that was new is gone again.
     */
    method AddReloadDelete(input: string) returns (afterAdd: Option<string>)
      requires Consistent() && !AllSpace(input) && NoLineBreak(input)
      modifies this`checklistFile, this`items
      ensures afterAdd == Some(Serialize(old(items) + [Strip(input)]))
      ensures afterAdd.Some? && ParseChecklist(afterAdd.value) == old(items) + [Strip(input)]
      ensures Strip(input) == Sentinel ==> checklistFile == afterAdd
      ensures Strip(input) != Sentinel && Strip(input) !in old(items) ==>
        items == old(items) && checklistFile == Some(Serialize(old(items)))
    {
      ghost var before := items;
      AddAndReload(input);
      afterAdd := checklistFile;
      var added := Strip(input);
      assert added in DeleteOptions(items) by {
        assert items[|before|] == added;
      }
      var extended := items;
      DeleteItem(added);
      if added != Sentinel && added !in before {
        AddThenDelete(before, added);
        assert items == RemoveFirst(extended, added);
      }
    }
  }

  /**
   * One page session on whatever checklist file exists (none at all on a
   * fresh start): the checklist loads, a single-line, non-blank entry is
   * added, the rerun reloads the file, and the new label is deleted again.
   * The reload sees exactly the extended list, and when the label was new
   * the deletion restores the file to the loaded list, unless the label is
   * the placeholder's text: that choice is read as no choice, so it stays.
   */
  method AddDeleteSession(file: Option<string>, input: string)
    returns (loaded: seq<string>, afterAdd: Option<string>, afterDelete: Option<string>)
    requires !AllSpace(input) && NoLineBreak(input)
    ensures file.None? ==> loaded == Defaults
    ensures file.Some? ==> loaded == ParseChecklist(file.value)
    ensures afterAdd == Some(Serialize(loaded + [Strip(input)]))
    ensures afterAdd.Some? && ParseChecklist(afterAdd.value) == loaded + [Strip(input)]
    ensures Strip(input) == Sentinel ==> afterDelete == afterAdd
    ensures Strip(input) != Sentinel && Strip(input) !in loaded ==> afterDelete == Some(Serialize(loaded))
  {
    var store := new Store(file, None, None);
    store.LoadChecklist();
    loaded := store.items;
    afterAdd := store.AddReloadDelete(input);
    afterDelete := store.checklistFile;
  }
}
