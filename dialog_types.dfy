/**
 * The dialog and wizard objects of the model-view dialog service: panes with
 * a validity flag, tabs and wizard pages, dialogs with a close gate, and the
 * wizard's page list with its current-page cursor and navigation gate.
 *
 * Each event emitter is an append-only log field that a method extends when
 * the source fires the event. A thrown error is an `Outcome` returned by the
 * method; a method that throws changes nothing.
 */
module DialogTypes {
  import opened Wrappers

  /** Whether a method ran to the end or threw an `Error` with the given message. */
  datatype Outcome = Done | Thrown(message: string)

  /** The message every out-of-range page index is rejected with. */
  const OutOfBounds := "Index is out of bounds"

  /** A message shown in a dialog or wizard (a host type; only its text and level are kept). */
  datatype MessageLevel = Error | Warning | Information
  datatype DialogMessage = DialogMessage(text: string, level: MessageLevel)

  // ---------------------------------------------------------------------------
  // ModelViewPane

  /** The validity flag shared by dialogs, tabs and wizard pages. */
  class ModelViewPane {
    var valid: bool
    /** The values the validity-changed event has fired with, oldest first. */
    var fired: seq<bool>

    constructor ()
      ensures valid && fired == []
    {
      valid := true;
      fired := [];
    }

    /** Sets the flag; the event fires, with the new value, only when the flag changes. */
    method NotifyValidityChanged(v: bool)
      modifies this
      ensures valid == v
      ensures fired == old(fired) + (if old(valid) != v then [v] else [])
    {
      if valid != v {
        valid := v;
        fired := fired + [valid];
      }
    }
  }

  // ---------------------------------------------------------------------------
  // Tabs and pages

  /** A tab of a dialog; its content defaults to the empty text. */
  class DialogTab {
    var title: string
    var content: string
    const pane: ModelViewPane

    constructor (title: string, content: Option<string>)
      ensures this.title == title && this.content == content.GetOr("")
      ensures fresh(pane) && pane.valid && pane.fired == []
    {
      this.title := title;
      this.content := content.GetOr("");
      pane := new ModelViewPane();
    }
  }

  /** A page of a wizard: a tab, which a wizard holds in its page list. */
  class WizardPage {
    const tab: DialogTab

    constructor (title: string, content: Option<string>)
      ensures tab.title == title && tab.content == content.GetOr("")
      ensures fresh(tab) && fresh(tab.pane) && tab.pane.valid && tab.pane.fired == []
    {
      tab := new DialogTab(title, content);
    }
  }

  // ---------------------------------------------------------------------------
  // Dialog

  /** The content of a dialog: a single text or a list of tabs. */
  datatype DialogContent = Text(text: string) | Tabs(tabs: seq<DialogTab>)

  class Dialog {
    var title: string
    var content: DialogContent
    const pane: ModelViewPane
    var message: Option<DialogMessage>
    /** The values the message-changed event has fired with, oldest first. */
    var messagesFired: seq<Option<DialogMessage>>
    var closeValidator: Option<() -> bool>

    /** A dialog with no message and no close validator; content defaults to the empty text. */
    constructor (title: string, content: Option<DialogContent>)
      ensures this.title == title && this.content == content.GetOr(Text(""))
      ensures fresh(pane) && pane.valid && pane.fired == []
      ensures message == None && messagesFired == [] && closeValidator == None
    {
      this.title := title;
      this.content := content.GetOr(Text(""));
      pane := new ModelViewPane();
      message := None;
      messagesFired := [];
      closeValidator := None;
    }

    /** Sets the message; the event fires on every set, even with the same value. */
    method SetMessage(value: Option<DialogMessage>)
      modifies this
      ensures message == value && messagesFired == old(messagesFired) + [value]
      ensures title == old(title) && content == old(content) && closeValidator == old(closeValidator)
    {
      message := value;
      messagesFired := messagesFired + [message];
    }

    /** Replaces any earlier validator. */
    method RegisterCloseValidator(validator: () -> bool)
      modifies this
      ensures closeValidator == Some(validator)
      ensures title == old(title) && content == old(content)
      ensures message == old(message) && messagesFired == old(messagesFired)
    {
      closeValidator := Some(validator);
    }

    /** True with no validator registered, otherwise what the last registered one answers. */
    method ValidateClose() returns (ok: bool)
      ensures closeValidator.None? ==> ok
      ensures closeValidator.Some? ==> ok == closeValidator.value()
    {
      match closeValidator
      case None =>
        ok := true;
      case Some(f) =>
        ok := f();
    }
  }

  // ---------------------------------------------------------------------------
  // The page list and its cursor, as values

  /** The cursor is unset (-1) or on one of `count` pages. */
  predicate CursorValid(cursor: int, count: nat) {
    cursor == -1 || 0 <= cursor < count
  }

  /** Whether `addPage` accepts the index: none (append) or a position from 0 to `count`. */
  predicate InsertIndexValid(index: Option<int>, count: nat) {
    index.None? || 0 <= index.value <= count
  }

  /** The page list after `addPage`: `page` appended, or placed at the given position. */
  function Inserted<T>(pages: seq<T>, page: T, index: Option<int>): (r: seq<T>)
    requires InsertIndexValid(index, |pages|)
  {
    match index
    case None => pages + [page]
    case Some(i) => pages[..i] + [page] + pages[i..]
  }

  /** The cursor after `addPage`: one further on when the page goes in at or before it. */
  function CursorAfterInsert(cursor: int, index: Option<int>): int {
    if index.Some? && index.value <= cursor then cursor + 1 else cursor
  }

  /** The page list after `removePage`. */
  function Removed<T>(pages: seq<T>, index: nat): (r: seq<T>)
    requires index < |pages|
  {
    pages[..index] + pages[index + 1..]
  }

  /** The page `removePage` moves to before deleting the current page: the previous one, or the next one from the first. */
  function Neighbour(cursor: int): int {
    if cursor > 0 then cursor - 1 else cursor + 1
  }

  /** Whether `removePage` succeeds: the index names a page, and it is not the only page while current. */
  predicate RemoveSucceeds(cursor: int, index: int, count: nat) {
    0 <= index < count && (index == cursor ==> 0 <= Neighbour(cursor) < count)
  }

  /** The cursor after `removePage`: moved off a removed current page, then one back when a page before it went. */
  function CursorAfterRemove(cursor: int, index: int): int {
    var switched := if index == cursor then Neighbour(cursor) else cursor;
    if index < switched then switched - 1 else switched
  }

  // ---------------------------------------------------------------------------
  // Wizard

  /** What the page-changed event reports: the cursor before and after. */
  datatype PageChangeInfo = PageChangeInfo(lastPage: int, newPage: int)

  /** The events a wizard fires, in the order it fires them. */
  datatype WizardEvent =
    | PageChanged(info: PageChangeInfo)
    | PageAdded(page: WizardPage)
    | PageRemoved(page: WizardPage)
    | MessageChanged(message: Option<DialogMessage>)

  class Wizard {
    var title: string
    const name: string
    var pages: seq<WizardPage>
    /** The index of the current page; -1 until a page is made current. */
    var currentPage: int
    var navigationValidator: Option<PageChangeInfo -> bool>
    var message: Option<DialogMessage>
    /** Every event fired so far, oldest first. */
    var fired: seq<WizardEvent>

    predicate Valid()
      reads this
    {
      CursorValid(currentPage, |pages|)
    }

    constructor (title: string, name: string)
      ensures Valid()
      ensures this.title == title && this.name == name
      ensures pages == [] && currentPage == -1
      ensures navigationValidator == None && message == None && fired == []
    {
      this.title := title;
      this.name := name;
      pages := [];
      currentPage := -1;
      navigationValidator := None;
      message := None;
      fired := [];
    }

    /** Moves the cursor; fires page-changed when it actually moves; throws for an index with no page. */
    method SetCurrentPage(index: int) returns (outcome: Outcome)
      requires Valid()
      modifies this
      ensures Valid()
      ensures outcome == if 0 <= index < |old(pages)| then Done else Thrown(OutOfBounds)
      ensures outcome.Thrown? ==> currentPage == old(currentPage) && fired == old(fired)
      ensures outcome.Done? ==> currentPage == index
      ensures outcome.Done? ==> fired == old(fired) + if old(currentPage) != index
                                                       then [PageChanged(PageChangeInfo(old(currentPage), index))]
                                                       else []
      ensures pages == old(pages) && title == old(title)
      ensures navigationValidator == old(navigationValidator) && message == old(message)
    {
      if index < 0 || index >= |pages| {
        return Thrown(OutOfBounds);
      }
      var lastPage := currentPage;
      currentPage := index;
      if lastPage != currentPage {
        fired := fired + [PageChanged(PageChangeInfo(lastPage, currentPage))];
      }
      outcome := Done;
    }

    /** Appends `page`, or inserts it at `index`, keeping the same page current; fires page-added. */
    method AddPage(page: WizardPage, index: Option<int>) returns (outcome: Outcome)
      requires Valid()
      modifies this
      ensures Valid()
      ensures outcome == if InsertIndexValid(index, |old(pages)|) then Done else Thrown(OutOfBounds)
      ensures outcome.Thrown? ==> pages == old(pages) && currentPage == old(currentPage) && fired == old(fired)
      ensures outcome.Done? ==> pages == Inserted(old(pages), page, index)
      ensures outcome.Done? ==> currentPage == CursorAfterInsert(old(currentPage), index)
      ensures outcome.Done? ==> fired == old(fired) + [PageAdded(page)]
      ensures title == old(title) && navigationValidator == old(navigationValidator) && message == old(message)
    {
      if index.Some? && (index.value < 0 || index.value > |pages|) {
        return Thrown(OutOfBounds);
      }
      if index.Some? && index.value <= currentPage {
        currentPage := currentPage + 1;
      }
      match index {
        case None =>
          pages := pages + [page];
        case Some(i) =>
          pages := pages[..i] + [page] + pages[i..];
      }
      InsertKeepsCursorValid(old(pages), page, index, old(currentPage));
      fired := fired + [PageAdded(page)];
      outcome := Done;
    }

    /**
     * Deletes the page at `index` and fires page-removed with it. A current
     * page is first left for its neighbour, which fires page-changed; when
     * it is the only page that move throws and nothing is deleted.
     */
    method RemovePage(index: int) returns (outcome: Outcome)
      requires Valid()
      modifies this
      ensures Valid()
      ensures outcome == if RemoveSucceeds(old(currentPage), index, |old(pages)|) then Done else Thrown(OutOfBounds)
      ensures outcome.Thrown? ==> pages == old(pages) && currentPage == old(currentPage) && fired == old(fired)
      ensures outcome.Done? ==> 0 <= index < |old(pages)| && pages == Removed(old(pages), index)
      ensures outcome.Done? ==> currentPage == CursorAfterRemove(old(currentPage), index)
      ensures outcome.Done? ==> fired == old(fired)
                                         + (if index == old(currentPage)
                                            then [PageChanged(PageChangeInfo(index, Neighbour(index)))]
                                            else [])
                                         + [PageRemoved(old(pages)[index])]
      ensures title == old(title) && navigationValidator == old(navigationValidator) && message == old(message)
    {
      if index < 0 || index >= |pages| {
        return Thrown(OutOfBounds);
      }
      if index == currentPage {
        var newPage := if currentPage > 0 then currentPage - 1 else currentPage + 1;
        var switched := SetCurrentPage(newPage);
        if switched.Thrown? {
          return switched;
        }
      }
      if index < currentPage {
        currentPage := currentPage - 1;
      }
      var removedPage := pages[index];
      pages := pages[..index] + pages[index + 1..];
      RemoveKeepsCursorValid(old(pages), index, old(currentPage));
      fired := fired + [PageRemoved(removedPage)];
      outcome := Done;
    }

    /** Replaces any earlier validator. */
    method RegisterNavigationValidator(validator: PageChangeInfo -> bool)
      modifies this
      ensures navigationValidator == Some(validator)
      ensures pages == old(pages) && currentPage == old(currentPage) && fired == old(fired)
      ensures title == old(title) && message == old(message)
    {
      navigationValidator := Some(validator);
    }

    /** True with no validator registered, otherwise what the last registered one answers for a move from the current page to `newPage`. */
    method ValidateNavigation(newPage: int) returns (ok: bool)
      ensures navigationValidator.None? ==> ok
      ensures navigationValidator.Some? ==> ok == navigationValidator.value(PageChangeInfo(currentPage, newPage))
    {
      match navigationValidator
      case None =>
        ok := true;
      case Some(f) =>
        ok := f(PageChangeInfo(currentPage, newPage));
    }

    /** Sets the message; the event fires on every set, even with the same value. */
    method SetMessage(value: Option<DialogMessage>)
      modifies this
      ensures message == value && fired == old(fired) + [MessageChanged(value)]
      ensures pages == old(pages) && currentPage == old(currentPage)
      ensures title == old(title) && navigationValidator == old(navigationValidator)
    {
      message := value;
      fired := fired + [MessageChanged(message)];
    }
  }

  // ---------------------------------------------------------------------------
  // Properties of the page list and its cursor

  /** `addPage` adds exactly `page`, at the given position (or last), and keeps the other pages in order. */
  lemma InsertedContents<T>(pages: seq<T>, page: T, index: Option<int>)
    requires InsertIndexValid(index, |pages|)
    ensures var r, at := Inserted(pages, page, index), index.GetOr(|pages|);
            |r| == |pages| + 1 && r[at] == page
            && (forall j | 0 <= j < at :: r[j] == pages[j])
            && (forall j | at < j < |r| :: r[j] == pages[j - 1])
  {
  }

  /** `addPage` keeps the cursor valid, and the page that was current is current afterwards. */
  lemma InsertKeepsCursorValid<T>(pages: seq<T>, page: T, index: Option<int>, cursor: int)
    requires CursorValid(cursor, |pages|) && InsertIndexValid(index, |pages|)
    ensures CursorValid(CursorAfterInsert(cursor, index), |Inserted(pages, page, index)|)
    ensures cursor >= 0 ==> Inserted(pages, page, index)[CursorAfterInsert(cursor, index)] == pages[cursor]
  {
    InsertedContents(pages, page, index);
  }

  /** `removePage` deletes exactly the page at `index` and keeps the others in order. */
  lemma RemovedContents<T>(pages: seq<T>, index: nat)
    requires index < |pages|
    ensures var r := Removed(pages, index);
            |r| == |pages| - 1
            && (forall j | 0 <= j < index :: r[j] == pages[j])
            && (forall j | index <= j < |r| :: r[j] == pages[j + 1])
            && multiset(r) + multiset{pages[index]} == multiset(pages)
  {
    var r := Removed(pages, index);
    assert pages == pages[..index] + [pages[index]] + pages[index + 1..];
  }

  /** A successful `removePage` keeps the cursor valid. */
  lemma RemoveKeepsCursorValid<T>(pages: seq<T>, index: int, cursor: int)
    requires CursorValid(cursor, |pages|) && RemoveSucceeds(cursor, index, |pages|)
    ensures CursorValid(CursorAfterRemove(cursor, index), |pages| - 1)
  {
  }

  /** Removing another page leaves the same page current; removing the current one makes its neighbour current. */
  lemma RemoveKeepsCurrentPage<T>(pages: seq<T>, index: int, cursor: int)
    requires CursorValid(cursor, |pages|) && RemoveSucceeds(cursor, index, |pages|) && cursor >= 0
    ensures 0 <= CursorAfterRemove(cursor, index) < |pages| - 1
    ensures Removed(pages, index)[CursorAfterRemove(cursor, index)]
            == if index == cursor then pages[Neighbour(cursor)] else pages[cursor]
  {
    RemovedContents(pages, index);
  }

  /** The only page cannot be removed while it is current; any other valid removal succeeds. */
  lemma RemoveFailsOnlyForLastCurrentPage(cursor: int, index: int, count: nat)
    requires CursorValid(cursor, count) && 0 <= index < count
    ensures !RemoveSucceeds(cursor, index, count) <==> index == cursor && count == 1
  {
  }

  // ---------------------------------------------------------------------------
  // Scenarios

  /** Setting the same validity twice fires at most once, and only for a change from the initial `true`. */
  method RepeatedValidity(v: bool) returns (fired: seq<bool>)
    ensures fired == if v then [] else [false]
  {
    var pane := new ModelViewPane();
    pane.NotifyValidityChanged(v);
    pane.NotifyValidityChanged(v);
    fired := pane.fired;
  }

  /** Every tab, page and dialog has a validity flag of its own: changing one leaves the others as they were. */
  method SeparateValidity() returns (tab: bool, page: bool, dialog: bool, fired: seq<bool>)
    ensures !tab && page && dialog && fired == [false]
  {
    var t := new DialogTab("tab", None);
    var p := new WizardPage("page", None);
    var d := new Dialog("dialog", None);
    t.pane.NotifyValidityChanged(false);
    tab, page, dialog := t.pane.valid, p.tab.pane.valid, d.pane.valid;
    fired := t.pane.fired;
  }

  /** A dialog with no validator may close; with validators, the last one registered decides. */
  method CloseGateScenario(first: () -> bool, second: () -> bool) returns (before: bool, after: bool)
    ensures before
    ensures after == second()
  {
    var dialog := new Dialog("", None);
    before := dialog.ValidateClose();
    dialog.RegisterCloseValidator(first);
    dialog.RegisterCloseValidator(second);
    after := dialog.ValidateClose();
  }

  /** The navigation gate sees the current page as `lastPage`, and only the last validator registered. */
  method NavigationGateScenario(first: PageChangeInfo -> bool, second: PageChangeInfo -> bool, newPage: int)
    returns (before: bool, after: bool)
    ensures before
    ensures after == second(PageChangeInfo(1, newPage))
  {
    var wizard := new Wizard("", "");
    var p := new WizardPage("first", None);
    var q := new WizardPage("second", None);
    var _ := wizard.AddPage(p, None);
    var _ := wizard.AddPage(q, None);
    var _ := wizard.SetCurrentPage(1);
    before := wizard.ValidateNavigation(newPage);
    wizard.RegisterNavigationValidator(first);
    wizard.RegisterNavigationValidator(second);
    after := wizard.ValidateNavigation(newPage);
  }

  /** The only page, once current, cannot be removed: the move away from it throws first. */
  method RemoveOnlyPage() returns (outcome: Outcome, count: nat, events: nat)
    ensures outcome == Thrown(OutOfBounds) && count == 1
    ensures events == 2  // page-added, then page-changed from -1 to 0
  {
    var wizard := new Wizard("", "");
    var p := new WizardPage("only", None);
    var _ := wizard.AddPage(p, None);
    var _ := wizard.SetCurrentPage(0);
    outcome := wizard.RemovePage(0);
    count := |wizard.pages|;
    events := |wizard.fired|;
  }

  /** Removing the first page while it is current moves to the second, which then becomes page 0. */
  method RemoveFirstCurrentPage() returns (titles: seq<string>, current: int, last: seq<WizardEvent>)
    ensures titles == ["second"] && current == 0
    ensures |last| == 2 && last[0] == PageChanged(PageChangeInfo(0, 1))
    ensures last[1].PageRemoved? && last[1].page.tab.title == "first"
  {
    var wizard := new Wizard("", "");
    var p := new WizardPage("first", None);
    var q := new WizardPage("second", None);
    var _ := wizard.AddPage(p, None);
    var _ := wizard.AddPage(q, None);
    var _ := wizard.SetCurrentPage(0);
    var n := |wizard.fired|;
    var _ := wizard.RemovePage(0);
    titles := [wizard.pages[0].tab.title];
    current := wizard.currentPage;
    last := wizard.fired[n..];
  }
}
