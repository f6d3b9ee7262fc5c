/** The event calendar (src/components/Calendar/Calendar.js): each day cell shows the first
    event on that date as a badge coloured by its status, and a modal shows the clicked event,
    switching between a view mode and an edit mode. Dates are the `YYYY-MM-DD` strings the
    cell's date formats to. */
module Calendar {
  import opened Js
  import opened Seqs

  datatype BadgeType = Error | Success | Warning

  /** An event as the backend sends it; `status` is whatever value the payload carries. */
  datatype Event = Event(date: string, event: string, status: JsValue)

  datatype ListItem = ListItem(badge: BadgeType, content: string)

  /** `mapStatusToBadgeType`: a strict `switch` on the three status strings. */
  function MapStatusToBadgeType(status: JsValue): (t: BadgeType)
    ensures t == Error <==> status == Str("0")
    ensures t == Warning <==> status == Str("2")
    ensures t == Success <==> status != Str("0") && status != Str("2")
  {
    match status
    case Str(s) =>
      if s == "0" then Error
      else if s == "1" then Success
      else if s == "2" then Warning
      else Success
    case _ => Success
  }

  /** The strict comparison never matches a numeric status, so the number 0 is shown as a
      success and not as an error. */
  lemma NumericStatusIsSuccess(n: int)
    ensures MapStatusToBadgeType(Num(n)) == Success
  {
  }

  function OnDate(date: string): Event -> bool
  {
    (e: Event) => e.date == date
  }

  /** `getListData`: at most one badge, built from the first event on the date. */
  function GetListData(eventsData: seq<Event>, date: string): (items: seq<ListItem>)
    ensures |items| <= 1
    ensures items == [] <==> forall k :: 0 <= k < |eventsData| ==> eventsData[k].date != date
    ensures items != [] ==>
              exists k :: 0 <= k < |eventsData| && eventsData[k].date == date &&
                (forall j :: 0 <= j < k ==> eventsData[j].date != date) &&
                items[0] == ListItem(MapStatusToBadgeType(eventsData[k].status), eventsData[k].event)
  {
    var i := FindIndex(eventsData, OnDate(date));
    if i.Some? then
      var e := eventsData[i.value];
      [ListItem(MapStatusToBadgeType(e.status), e.event)]
    else []
  }

  /** The event the modal shows: built from a badge, so it has content, colour and date but
      no status. */
  datatype SelectedEvent = SelectedEvent(content: string, color: Option<string>, date: string)

  /** The state of the calendar and its modal; `prefillEvent`/`prefillStatus` are the values
      the edit form was last filled with. */
  class EventCalendar {
    var eventsData: seq<Event>
    /** Set once a payload without an `events` array has been stored: every day cell then
        calls `find` on a non-array while rendering, which throws, and with no error boundary
        React unmounts the page. */
    var crashed: bool
    var selectedEvent: Option<SelectedEvent>
    var modalVisible: bool
    var isEditMode: bool
    var prefillEvent: Option<string>
    var prefillStatus: Option<string>

    constructor ()
      ensures eventsData == [] && selectedEvent == None && !modalVisible && !isEditMode
      ensures prefillEvent == None && prefillStatus == None && !crashed
    {
      eventsData := [];
      crashed := false;
      selectedEvent := None;
      modalVisible := false;
      isEditMode := false;
      prefillEvent := None;
      prefillStatus := None;
    }

    /** `fetchData`: stores `data.events` unchecked. An `events` array replaces the events;
        a payload whose `events` is missing or not an array crashes the page at the next
        render (the model keeps the old events, which nothing reads any more); a failed
        request, or a body without `data`, is caught and changes nothing. */
    method FetchData(response: Response<Event>)
      modifies this
      ensures eventsData == if response.Array? then response.items else old(eventsData)
      ensures crashed == (old(crashed) || response.NotAnArray?)
      ensures selectedEvent == old(selectedEvent) && modalVisible == old(modalVisible)
      ensures isEditMode == old(isEditMode)
      ensures prefillEvent == old(prefillEvent) && prefillStatus == old(prefillStatus)
    {
      match response {
        case Array(items) =>
          eventsData := items;
        case NotAnArray =>
          crashed := true;
        case RequestFailed =>
      }
    }

    /** `handleEventClick`: selects the clicked event and opens the modal in view mode. */
    method HandleEventClick(content: string, color: Option<string>, date: string)
      modifies this
      ensures selectedEvent == Some(SelectedEvent(content, color, date))
      ensures !isEditMode && modalVisible
      ensures eventsData == old(eventsData)
      ensures prefillEvent == old(prefillEvent) && prefillStatus == old(prefillStatus)
      ensures crashed == old(crashed)
    {
      selectedEvent := Some(SelectedEvent(content, color, date));
      isEditMode := false;
      modalVisible := true;
    }

    /** `handleEdit` (its button exists only while an event is selected): fills the form with
        the event's content and its status, which a selected event never has. */
    method HandleEdit()
      requires selectedEvent.Some?
      modifies this
      ensures isEditMode && modalVisible
      ensures prefillEvent == Some(old(selectedEvent).value.content) && prefillStatus == None
      ensures selectedEvent == old(selectedEvent) && eventsData == old(eventsData)
      ensures crashed == old(crashed)
    {
      prefillEvent := Some(selectedEvent.value.content);
      prefillStatus := None;
      isEditMode := true;
      modalVisible := true;
    }

    /** `handleModalClose`: hides the modal, leaves edit mode and resets the form. */
    method HandleModalClose()
      modifies this
      ensures !modalVisible && !isEditMode
      ensures prefillEvent == None && prefillStatus == None
      ensures selectedEvent == old(selectedEvent) && eventsData == old(eventsData)
      ensures crashed == old(crashed)
    {
      modalVisible := false;
      isEditMode := false;
      prefillEvent := None;
      prefillStatus := None;
    }

    /** `handleDelete` and `handleUpdate` (whose buttons exist only while an event is
        selected): a successful request hides the modal; edit mode is left as it was. The
        refetch that follows is a separate `FetchData`. */
    method HandleRequestDone(succeeded: bool)
      requires selectedEvent.Some?
      modifies this
      ensures modalVisible == (old(modalVisible) && !succeeded)
      ensures isEditMode == old(isEditMode)
      ensures selectedEvent == old(selectedEvent) && eventsData == old(eventsData)
      ensures prefillEvent == old(prefillEvent) && prefillStatus == old(prefillStatus)
      ensures crashed == old(crashed)
    {
      if succeeded {
        modalVisible := false;
      }
    }
  }
}
