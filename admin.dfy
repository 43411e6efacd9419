/**
 * The settings side of the plugin (class Appointment_Updater_Admin): reading
 * one stored option, sanitising a submitted settings form, deciding from the
 * old and new settings whether the cache must be refetched, and scheduling
 * the one-shot 'clear_cache' event on WordPress's event scheduler.
 */
module Admin {
  import opened Wrappers
  import opened Strings

  /** The settings row as WordPress stores it: option name to value. */
  type Options = map<string, string>

  const ConsumerKey := "consumer_key"
  const ConsumerSecret := "consumer_secret"
  const BaseUrl := "base_url"
  const AppointmentsDropdown := "appointments_dropdown"

  /** The hook the cache-clearing event runs. */
  const ClearCacheHook := "clear_cache"

  /** Seconds between a request to clear the cache and the scheduled clearing. */
  const ClearCacheDelay := 15

  const ClearCacheError := "Could not schedule event to clear cache. Try again later."

  // ---------------------------------------------------------------------------
  // get_option_for
  // ---------------------------------------------------------------------------

  /**
   * get_option_for: '' when the settings row does not exist; otherwise the
   * value stored under the trimmed name, or null (None) when there is none.
   */
  function GetOptionFor(row: Option<Options>, optionName: string): (r: Option<string>)
    ensures row == None ==> r == Some("")
    ensures row.Some? ==> (r.Some? <==> PhpTrim(optionName) in row.value)
    ensures row.Some? && r.Some? ==> r.value == row.value[PhpTrim(optionName)]
  {
    match row
    case None => Some("")
    case Some(options) =>
      var name := PhpTrim(optionName);
      if name in options then Some(options[name]) else None
  }

  /** Surrounding whitespace in the requested name does not matter. */
  lemma GetOptionForTrims(row: Option<Options>, optionName: string)
    ensures GetOptionFor(row, optionName) == GetOptionFor(row, PhpTrim(optionName))
  {
    TrimIdempotent(optionName, IsPhpSpace);
  }

  /** With a stored row, a name that is not set reads as null, whatever the other options. */
  lemma GetOptionForMissing(options: Options, optionName: string)
    requires PhpTrim(optionName) !in options
    ensures GetOptionFor(Some(options), optionName) == None
  {
  }

  // ---------------------------------------------------------------------------
  // The update_option hook: array_diff and the change test
  // ---------------------------------------------------------------------------

  /**
   * array_diff(old, new): the entries of old whose value occurs nowhere among
   * the values of new (keys are not compared).
   */
  function ArrayDiff(oldValue: Options, newValue: Options): (r: Options)
    ensures r.Keys <= oldValue.Keys
    ensures forall k :: k in r ==> r[k] == oldValue[k] && oldValue[k] !in newValue.Values
    ensures forall k :: k in oldValue && oldValue[k] !in newValue.Values ==> k in r
  {
    map k | k in oldValue && oldValue[k] !in newValue.Values :: oldValue[k]
  }

  /** The setting was stored before and its old value occurs nowhere among the new values. */
  predicate ValueDropped(oldValue: Options, newValue: Options, name: string) {
    name in oldValue && oldValue[name] !in newValue.Values
  }

  /**
   * Consumer key, consumer secret or base URL is among the keys array_diff
   * reports: exactly when the old value of one of them is no longer any
   * setting's value.
   */
  function ConnectionChanged(oldValue: Options, newValue: Options): (r: bool)
    ensures r <==> (|| ValueDropped(oldValue, newValue, ConsumerKey)
                    || ValueDropped(oldValue, newValue, ConsumerSecret)
                    || ValueDropped(oldValue, newValue, BaseUrl))
  {
    var diff := ArrayDiff(oldValue, newValue);
    ConsumerKey in diff || ConsumerSecret in diff || BaseUrl in diff
  }

  /** Saving the same settings again schedules nothing. */
  lemma UnchangedNotDetected(options: Options)
    ensures !ConnectionChanged(options, options)
  {
    assert forall k :: k in options ==> options[k] in options.Values;
  }

  /** Changing only the dropdown (or adding it) schedules nothing. */
  lemma DropdownChangeNotDetected(oldValue: Options, choice: string)
    ensures !ConnectionChanged(oldValue, oldValue[AppointmentsDropdown := choice])
  {
    var newValue := oldValue[AppointmentsDropdown := choice];
    forall k | k in oldValue && k != AppointmentsDropdown ensures oldValue[k] in newValue.Values {
      assert newValue[k] == oldValue[k];
    }
  }

  /**
   * A connection setting whose old value no longer occurs anywhere among the
   * new values is detected.
   */
  lemma ChangedValueDetected(oldValue: Options, newValue: Options, k: string)
    requires k == ConsumerKey || k == ConsumerSecret || k == BaseUrl
    requires k in oldValue && oldValue[k] !in newValue.Values
    ensures ConnectionChanged(oldValue, newValue)
  {
    assert k in ArrayDiff(oldValue, newValue);
  }

  /**
   * The change test misses a new setting whose old value survives elsewhere:
   * swapping consumer key and consumer secret changes the settings but is not
   * detected.
   */
  lemma SwapNotDetected(oldValue: Options)
    requires ConsumerKey in oldValue && ConsumerSecret in oldValue
    ensures var newValue := oldValue[ConsumerKey := oldValue[ConsumerSecret]][ConsumerSecret := oldValue[ConsumerKey]];
            && (oldValue[ConsumerKey] != oldValue[ConsumerSecret] ==> newValue != oldValue)
            && !ConnectionChanged(oldValue, newValue)
  {
    var newValue := oldValue[ConsumerKey := oldValue[ConsumerSecret]][ConsumerSecret := oldValue[ConsumerKey]];
    assert newValue[ConsumerSecret] == oldValue[ConsumerKey];
    assert newValue[ConsumerKey] == oldValue[ConsumerSecret];
    forall k | k in oldValue ensures oldValue[k] in newValue.Values {
      if k != ConsumerKey && k != ConsumerSecret {
        assert newValue[k] == oldValue[k];
      }
    }
    if oldValue[ConsumerKey] != oldValue[ConsumerSecret] {
      assert newValue[ConsumerKey] != oldValue[ConsumerKey];
    }
  }

  /** A connection setting absent from the old settings is never detected, whatever its new value. */
  lemma FirstSettingNotDetected(oldValue: Options, newValue: Options)
    requires ConsumerKey !in oldValue && ConsumerSecret !in oldValue && BaseUrl !in oldValue
    ensures !ConnectionChanged(oldValue, newValue)
  {
  }

  // ---------------------------------------------------------------------------
  // sanitize
  // ---------------------------------------------------------------------------

  /** The settings the form recognises. */
  const RecognisedKeys: set<string> := {ConsumerKey, ConsumerSecret, BaseUrl, AppointmentsDropdown}

  /**
   * What sanitize returns: the recognised settings that are set, the two
   * credentials through sanitize_key, the base URL through sanitize_url and
   * the dropdown verbatim.
   */
  function Sanitized(input: Options, sanitizeKey: string -> string, sanitizeUrl: string -> string): Options {
    var withKey := if ConsumerKey in input then map[ConsumerKey := sanitizeKey(input[ConsumerKey])] else map[];
    var withSecret := if ConsumerSecret in input then withKey[ConsumerSecret := sanitizeKey(input[ConsumerSecret])] else withKey;
    var withUrl := if BaseUrl in input then withSecret[BaseUrl := sanitizeUrl(input[BaseUrl])] else withSecret;
    if AppointmentsDropdown in input then withUrl[AppointmentsDropdown := input[AppointmentsDropdown]] else withUrl
  }

  /** sanitize: builds the new settings key by key, copying only what is set. */
  method Sanitize(input: Options, sanitizeKey: string -> string, sanitizeUrl: string -> string)
    returns (newInput: Options)
    ensures newInput == Sanitized(input, sanitizeKey, sanitizeUrl)
  {
    newInput := map[];
    if ConsumerKey in input {
      newInput := newInput[ConsumerKey := sanitizeKey(input[ConsumerKey])];
    }
    if ConsumerSecret in input {
      newInput := newInput[ConsumerSecret := sanitizeKey(input[ConsumerSecret])];
    }
    if BaseUrl in input {
      newInput := newInput[BaseUrl := sanitizeUrl(input[BaseUrl])];
    }
    if AppointmentsDropdown in input {
      newInput := newInput[AppointmentsDropdown := input[AppointmentsDropdown]];
    }
  }

  /**
   * Exactly the recognised settings that are set survive; unknown keys are
   * dropped, and each survivor holds its sanitised (or, for the dropdown,
   * unchanged) value.
   */
  lemma SanitizedSettings(input: Options, sanitizeKey: string -> string, sanitizeUrl: string -> string)
    ensures var r := Sanitized(input, sanitizeKey, sanitizeUrl);
            && r.Keys == input.Keys * RecognisedKeys
            && (ConsumerKey in r ==> r[ConsumerKey] == sanitizeKey(input[ConsumerKey]))
            && (ConsumerSecret in r ==> r[ConsumerSecret] == sanitizeKey(input[ConsumerSecret]))
            && (BaseUrl in r ==> r[BaseUrl] == sanitizeUrl(input[BaseUrl]))
            && (AppointmentsDropdown in r ==> r[AppointmentsDropdown] == input[AppointmentsDropdown])
  {
  }

  /** With idempotent sanitisers, sanitising a sanitised form changes nothing. */
  lemma SanitizeIdempotent(input: Options, sanitizeKey: string -> string, sanitizeUrl: string -> string)
    requires forall s :: sanitizeKey(sanitizeKey(s)) == sanitizeKey(s)
    requires forall s :: sanitizeUrl(sanitizeUrl(s)) == sanitizeUrl(s)
    ensures var once := Sanitized(input, sanitizeKey, sanitizeUrl);
            Sanitized(once, sanitizeKey, sanitizeUrl) == once
  {
    SanitizedSettings(input, sanitizeKey, sanitizeUrl);
    var once := Sanitized(input, sanitizeKey, sanitizeUrl);
    SanitizedSettings(once, sanitizeKey, sanitizeUrl);
  }

  // ---------------------------------------------------------------------------
  // The event scheduler, schedule_single_event and its callers
  // ---------------------------------------------------------------------------

  /** A pending one-shot event: the hook it runs and the time (seconds) it is due. */
  datatype Event = Event(hook: string, timestamp: int)

  /** The pending events of one hook, in scheduling order. */
  function PendingFor(events: seq<Event>, hook: string): seq<Event>
    decreases |events|
  {
    if events == [] then []
    else
      var e := events[|events| - 1];
      PendingFor(events[..|events| - 1], hook) + (if e.hook == hook then [e] else [])
  }

  /** The events of every other hook (what wp_clear_scheduled_hook leaves). */
  function WithoutHook(events: seq<Event>, hook: string): seq<Event>
    decreases |events|
  {
    if events == [] then []
    else
      var e := events[|events| - 1];
      WithoutHook(events[..|events| - 1], hook) + (if e.hook != hook then [e] else [])
  }

  /** Clearing a hook removes all of its events and leaves every other hook's events as they were. */
  lemma WithoutHookPending(events: seq<Event>, hook: string, other: string)
    ensures PendingFor(WithoutHook(events, hook), hook) == []
    ensures other != hook ==> PendingFor(WithoutHook(events, hook), other) == PendingFor(events, other)
  {
    ClearedHookEmpty(events, hook);
    if other != hook {
      ClearKeepsOthers(events, hook, other);
    }
  }

  /** No event of a cleared hook is left. */
  lemma {:induction false} ClearedHookEmpty(events: seq<Event>, hook: string)
    ensures PendingFor(WithoutHook(events, hook), hook) == []
    decreases |events|
  {
    if events != [] {
      var init, e := events[..|events| - 1], events[|events| - 1];
      ClearedHookEmpty(init, hook);
      var rest := WithoutHook(init, hook);
      if e.hook != hook {
        assert WithoutHook(events, hook) == rest + [e];
        PendingAfterAppend(rest, e, hook);
      } else {
        assert WithoutHook(events, hook) == rest;
      }
    }
  }

  /** Clearing one hook keeps another hook's events, in order. */
  lemma {:induction false} ClearKeepsOthers(events: seq<Event>, hook: string, other: string)
    requires other != hook
    ensures PendingFor(WithoutHook(events, hook), other) == PendingFor(events, other)
    decreases |events|
  {
    if events != [] {
      var init, e := events[..|events| - 1], events[|events| - 1];
      ClearKeepsOthers(init, hook, other);
      var rest := WithoutHook(init, hook);
      assert PendingFor(events, other) == PendingFor(init, other) + (if e.hook == other then [e] else []);
      if e.hook != hook {
        assert WithoutHook(events, hook) == rest + [e];
        PendingAfterAppend(rest, e, other);
      } else {
        assert WithoutHook(events, hook) == rest;
      }
    }
  }

  /** Appending an event adds it to its own hook's pending list and to no other. */
  lemma PendingAfterAppend(events: seq<Event>, e: Event, hook: string)
    ensures PendingFor(events + [e], hook) == PendingFor(events, hook) + (if e.hook == hook then [e] else [])
  {
    assert (events + [e])[..|events|] == events;
  }

  /** WordPress's cron store: the pending one-shot events. */
  class Scheduler {
    var events: seq<Event>

    constructor ()
      ensures events == []
    {
      events := [];
    }

    /** wp_next_scheduled gives a time exactly when the hook has a pending event. */
    predicate IsScheduled(hook: string)
      reads this
    {
      PendingFor(events, hook) != []
    }

    /** wp_clear_scheduled_hook: drops every pending event of the hook. */
    method ClearScheduledHook(hook: string)
      modifies this
      ensures events == WithoutHook(old(events), hook)
    {
      events := WithoutHook(events, hook);
    }

    /**
     * wp_schedule_single_event: adds the event when WordPress accepts it;
     * whether it does (filters, storage) is outside this model and given as
     * `accepted`.
     */
    method ScheduleSingleEvent(timestamp: int, hook: string, accepted: bool) returns (ok: bool)
      modifies this
      ensures ok == accepted
      ensures events == if ok then old(events) + [Event(hook, timestamp)] else old(events)
    {
      ok := accepted;
      if ok {
        events := events + [Event(hook, timestamp)];
      }
    }
  }

  /**
   * schedule_single_event: clears a pending event of the hook, if any, then
   * schedules one at now + delay. Afterwards the hook has at most one pending
   * event, due at now + delay, and every other hook is untouched.
   */
  method ScheduleSingleEvent(scheduler: Scheduler, hookName: string, scheduleTime: int, now: int, accepted: bool)
    returns (ok: bool)
    modifies scheduler
    ensures ok == accepted
    ensures PendingFor(scheduler.events, hookName) == if ok then [Event(hookName, now + scheduleTime)] else []
    ensures forall h :: h != hookName ==> PendingFor(scheduler.events, h) == PendingFor(old(scheduler.events), h)
  {
    if scheduler.IsScheduled(hookName) {
      scheduler.ClearScheduledHook(hookName);
    }
    ghost var cleared := scheduler.events;
    ClearedPending(old(scheduler.events), cleared, hookName);
    ok := scheduler.ScheduleSingleEvent(now + scheduleTime, hookName, accepted);
    if ok {
      AppendedPending(cleared, old(scheduler.events), Event(hookName, now + scheduleTime));
    }
  }

  /** After clearing (or finding nothing to clear) the hook has no pending event and the others keep theirs. */
  lemma ClearedPending(events: seq<Event>, cleared: seq<Event>, hook: string)
    requires cleared == WithoutHook(events, hook) || (cleared == events && PendingFor(events, hook) == [])
    ensures PendingFor(cleared, hook) == []
    ensures forall h :: h != hook ==> PendingFor(cleared, h) == PendingFor(events, h)
  {
    if cleared == WithoutHook(events, hook) {
      WithoutHookPending(events, hook, hook);
      forall h | h != hook ensures PendingFor(cleared, h) == PendingFor(events, h) {
        WithoutHookPending(events, hook, h);
      }
    }
  }

  /** Appending the hook's event to a cleared list leaves exactly that event pending for it. */
  lemma AppendedPending(cleared: seq<Event>, events: seq<Event>, e: Event)
    requires PendingFor(cleared, e.hook) == []
    requires forall h :: h != e.hook ==> PendingFor(cleared, h) == PendingFor(events, h)
    ensures PendingFor(cleared + [e], e.hook) == [e]
    ensures forall h :: h != e.hook ==> PendingFor(cleared + [e], h) == PendingFor(events, h)
  {
    forall h ensures PendingFor(cleared + [e], h) == PendingFor(cleared, h) + (if e.hook == h then [e] else []) {
      PendingAfterAppend(cleared, e, h);
    }
  }

  /** The JSON reply the AJAX handler sends. */
  datatype AjaxReply = JsonError(error: string) | JsonSuccess(value: bool)

  /**
   * schedule_event_to_clear_cache: schedules 'clear_cache' 15 seconds ahead
   * and replies with success, or with the error message when scheduling failed.
   * Events of other hooks stay as they were.
   */
  method ScheduleEventToClearCache(scheduler: Scheduler, now: int, accepted: bool) returns (reply: AjaxReply)
    modifies scheduler
    ensures reply == if accepted then JsonSuccess(true) else JsonError(ClearCacheError)
    ensures PendingFor(scheduler.events, ClearCacheHook) == if accepted then [Event(ClearCacheHook, now + ClearCacheDelay)] else []
    ensures forall h :: h != ClearCacheHook ==> PendingFor(scheduler.events, h) == PendingFor(old(scheduler.events), h)
  {
    var retVal := ScheduleSingleEvent(scheduler, ClearCacheHook, ClearCacheDelay, now, accepted);
    if !retVal {
      reply := JsonError(ClearCacheError);
    } else {
      reply := JsonSuccess(retVal);
    }
  }

  /**
   * The update_option hook for the settings: when a connection setting
   * changed, 'clear_cache' is scheduled 15 seconds ahead and other hooks'
   * events stay as they were; otherwise the scheduler is left alone.
   */
  method OnOptionsUpdated(scheduler: Scheduler, oldValue: Options, newValue: Options, now: int, accepted: bool)
    modifies scheduler
    ensures !ConnectionChanged(oldValue, newValue) ==> scheduler.events == old(scheduler.events)
    ensures ConnectionChanged(oldValue, newValue) ==>
      PendingFor(scheduler.events, ClearCacheHook) == if accepted then [Event(ClearCacheHook, now + ClearCacheDelay)] else []
    ensures ConnectionChanged(oldValue, newValue) ==>
      forall h :: h != ClearCacheHook ==> PendingFor(scheduler.events, h) == PendingFor(old(scheduler.events), h)
  {
    var diff := ArrayDiff(oldValue, newValue);
    if ConsumerKey in diff || ConsumerSecret in diff || BaseUrl in diff {
      var _ := ScheduleSingleEvent(scheduler, ClearCacheHook, ClearCacheDelay, now, accepted);
    }
  }
}
