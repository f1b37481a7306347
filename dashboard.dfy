/**
 * The dashboard's state: the signed-in user's birthday list (in memory and in local storage),
 * the edit mode, the per-day shown table, and the geofencing feature with its geofence store,
 * location watch and current location.
 */
module Dashboard {
  import opened Wrappers
  import opened Calendar
  import opened Birthdays
  import opened ShownToday
  import opened Geofences
  import opened Seqs
  import opened Text

  /** The persisted geofencing settings: enabled flag, geofence list and default radius. */
  datatype GeofenceSettings = GeofenceSettings(enabled: bool, geofences: seq<Geofence>, radius: int)

  /** What is used when no settings were saved. */
  const DefaultSettings: GeofenceSettings := GeofenceSettings(false, [], 1000)

  /** The answer of `requestLocationPermission`. */
  datatype Permission = Granted | Denied

  /** How a submission of the birthday form ended. */
  datatype SaveOutcome = MissingFields | Updated | EditTargetMissing | Added

  /** `radius || this.geofenceRadius`: an absent or zero radius falls back to the default. */
  function EffectiveRadius(radius: Option<int>, fallback: int): (r: int)
    ensures radius.Some? && radius.value != 0 ==> r == radius.value
    ensures radius.None? || radius.value == 0 ==> r == fallback
  {
    if radius.Some? && radius.value != 0 then radius.value else fallback
  }

  /** The record an edit stores: the form's fields, the original ids kept (`id || _id`,
      `_id || id`), and the original photo unless a new one was uploaded. */
  function EditedRecord(existing: Birthday, form: Birthday, photo: Option<string>): (r: Birthday)
    ensures LookupId(r) == LookupId(existing) && EntityId(r) == EntityId(existing)
    ensures existing.id != "" ==> r.id == existing.id
    ensures r.name == form.name && r.date == form.date && r.relationship == form.relationship
    ensures r.phoneNumber == form.phoneNumber && r.email == form.email && r.notes == form.notes
    ensures r.photoUrl == if photo.Some? then photo.value else existing.photoUrl
  {
    form.(id := Or(existing.id, existing.mongoId), mongoId := Or(existing.mongoId, existing.id),
          photoUrl := if photo.Some? then photo.value else existing.photoUrl)
  }

  /** The record built from the form fields; optional contact fields are trimmed, a missing
      photo is empty, and the owner is the user's email or `default`. */
  function FormRecord(userEmail: string, name: string, date: DateField, relationship: string,
                      phoneInput: string, emailInput: string, notes: string, photo: Option<string>): (r: Birthday)
    ensures r.id == "" && r.mongoId == ""
    ensures r.name == name && r.date == date && r.relationship == relationship && r.notes == notes
    ensures r.phoneNumber == Trim(phoneInput) && r.email == Trim(emailInput)
    ensures r.photoUrl == if photo.Some? then photo.value else ""
    ensures r.userId != ""
  {
    Birthday("", "", name, date, relationship, Trim(phoneInput), Trim(emailInput), notes,
             if photo.Some? then photo.value else "", Or(userEmail, "default"))
  }

  /** The contact fields a form stores carry no white space at either end. */
  lemma FormContactsTrimmed(userEmail: string, name: string, date: DateField, relationship: string,
                            phoneInput: string, emailInput: string, notes: string, photo: Option<string>)
    ensures var r := FormRecord(userEmail, name, date, relationship, phoneInput, emailInput, notes, photo);
      IsTrimmed(r.phoneNumber) && IsTrimmed(r.email)
  {
    TrimmedEnds(phoneInput);
    TrimmedEnds(emailInput);
  }

  class BirthdayDashboard {
    /** `currentUser.email`, which names the user's storage keys. */
    var userEmail: string
    var birthdays: seq<Birthday>
    /** The list stored under `birthdays_<email>`. */
    var storedBirthdays: seq<Birthday>
    /** The id of the birthday being edited; "" is null. */
    var editingBirthdayId: string
    /** The table stored under `whatsappShownToday`. */
    var shownToday: ShownMap
    var geofencingEnabled: bool
    var currentLocation: Option<Location>
    var geofences: seq<Geofence>
    /** The handle of the location watch; JavaScript treats a handle of 0 as no watch. */
    var locationWatcher: Option<int>
    /** The global geofence radius in metres. */
    var geofenceRadius: int
    /** The settings stored under `geofencing_<email>`. */
    var savedSettings: Option<GeofenceSettings>

    constructor(email: string, stored: seq<Birthday>, shown: ShownMap, settings: Option<GeofenceSettings>)
      ensures userEmail == email && storedBirthdays == stored && shownToday == shown && savedSettings == settings
      ensures birthdays == [] && editingBirthdayId == ""
      ensures !geofencingEnabled && currentLocation.None? && geofences == [] && locationWatcher.None?
      ensures geofenceRadius == 1000
    {
      userEmail, storedBirthdays, shownToday, savedSettings := email, stored, shown, settings;
      birthdays, editingBirthdayId := [], "";
      geofencingEnabled, currentLocation, geofences, locationWatcher := false, None, [], None;
      geofenceRadius := 1000;
    }

    /** `loadBirthdaysFromAPI` with no API: the stored list (an absent one reads as empty). */
    method LoadBirthdays()
      modifies this`birthdays
      ensures birthdays == storedBirthdays
    {
      birthdays := storedBirthdays;
    }

    /** The text of the location stat card. */
    function Status(): LocationStatus
      reads this
    {
      StatusOf(geofencingEnabled, currentLocation)
    }

    /** `if (this.locationWatcher)`. */
    predicate HasWatcher()
      reads this
    {
      locationWatcher.Some? && locationWatcher.value != 0
    }

    method SaveGeofencingSettings()
      modifies this`savedSettings
      ensures savedSettings == Some(GeofenceSettings(geofencingEnabled, geofences, geofenceRadius))
    {
      savedSettings := Some(GeofenceSettings(geofencingEnabled, geofences, geofenceRadius));
    }

    /** `loadGeofencingSettings`: adopt the saved settings (or the defaults) and resume the
        watch when they say the feature is on. */
    method LoadGeofencingSettings(supported: bool, watchId: int)
      modifies this`geofencingEnabled, this`geofences, this`geofenceRadius, this`locationWatcher
      ensures var s := if old(savedSettings).Some? then old(savedSettings).value else DefaultSettings;
        geofencingEnabled == s.enabled && geofences == s.geofences && geofenceRadius == s.radius
        && locationWatcher == if s.enabled && supported then Some(watchId) else old(locationWatcher)
    {
      var s := if savedSettings.Some? then savedSettings.value else DefaultSettings;
      geofencingEnabled, geofences, geofenceRadius := s.enabled, s.geofences, s.radius;
      if geofencingEnabled {
        StartGeofencing(supported, watchId);
      }
    }

    /** `startGeofencing`: without geolocation support nothing happens; otherwise a watch is
        started (a previous handle is overwritten, not cleared). The one-shot position request
        it also makes answers later through OnCurrentPosition. */
    method StartGeofencing(supported: bool, watchId: int)
      modifies this`locationWatcher
      ensures locationWatcher == if supported then Some(watchId) else old(locationWatcher)
    {
      if supported {
        locationWatcher := Some(watchId);
      }
    }

    /** `stopGeofencing`: clear the watch if there is one, and forget the location. */
    method StopGeofencing()
      modifies this`locationWatcher, this`currentLocation
      ensures currentLocation.None?
      ensures locationWatcher == if old(HasWatcher()) then None else old(locationWatcher)
    {
      if locationWatcher.Some? && locationWatcher.value != 0 {
        locationWatcher := None;
      }
      currentLocation := None;
    }

    /**
     * `toggleGeofencing`: enabling asks for permission and starts the watch only when it is
     * granted, otherwise the flag reverts to false; disabling stops the watch and clears the
     * location. The settings are saved either way.
     */
    method ToggleGeofencing(enabled: bool, permission: Permission, watchId: int)
      modifies this`geofencingEnabled, this`locationWatcher, this`currentLocation, this`savedSettings
      ensures geofencingEnabled == (enabled && permission == Granted)
      ensures enabled && permission == Granted ==>
                locationWatcher == Some(watchId) && currentLocation == old(currentLocation)
      ensures enabled && permission == Denied ==>
                locationWatcher == old(locationWatcher) && currentLocation == old(currentLocation)
      ensures !enabled ==> currentLocation.None?
                           && locationWatcher == if old(HasWatcher()) then None else old(locationWatcher)
      ensures !(enabled && permission == Granted) ==> Status() == Inactive
      ensures savedSettings == Some(GeofenceSettings(geofencingEnabled, geofences, geofenceRadius))
    {
      geofencingEnabled := enabled;
      if enabled {
        if permission == Granted {
          // a granted permission implies the geolocation API is present
          StartGeofencing(true, watchId);
        } else {
          geofencingEnabled := false;
          SaveGeofencingSettings();
          return;
        }
      } else {
        StopGeofencing();
      }
      SaveGeofencingSettings();
    }

    /** The success callback of the one-shot `getCurrentLocation`: adopt the position as is. */
    method OnCurrentPosition(sample: Location)
      modifies this`currentLocation
      ensures currentLocation == Some(sample)
    {
      currentLocation := Some(sample);
    }

    /** `checkGeofences`: no alerts without a location or without geofences; otherwise one
        alert for each geofence within the global radius. */
    method CheckGeofences(dist: Distance) returns (alerts: seq<Alert>)
      ensures currentLocation.None? ==> alerts == []
      ensures currentLocation.Some? ==> alerts == NearbyAlerts(currentLocation.value, geofences, geofenceRadius, dist)
    {
      if currentLocation.None? || |geofences| == 0 {
        return [];
      }
      alerts := CollectAlerts(currentLocation.value, geofences, geofenceRadius, dist);
    }

    /**
     * The watch callback: a sample is adopted, and the geofences checked against it, only when
     * there was no location or it moved more than 10 metres; otherwise nothing changes.
     */
    method OnWatchPosition(sample: Location, dist: Distance) returns (alerts: seq<Alert>)
      modifies this`currentLocation
      ensures HasLocationChangedSignificantly(old(currentLocation), sample, dist) ==>
                currentLocation == Some(sample) && alerts == NearbyAlerts(sample, geofences, geofenceRadius, dist)
      ensures !HasLocationChangedSignificantly(old(currentLocation), sample, dist) ==>
                currentLocation == old(currentLocation) && alerts == []
    {
      if currentLocation.None?
         || dist(currentLocation.value.latitude, currentLocation.value.longitude, sample.latitude, sample.longitude) > 0.01
      {
        currentLocation := Some(sample);
        alerts := CheckGeofences(dist);
      } else {
        alerts := [];
      }
    }

    /** `addGeofence`: append one record whose radius is the given one or, when that is absent
        or zero, the global radius; earlier records are untouched. */
    method AddGeofence(name: string, latitude: real, longitude: real, radius: Option<int>, id: string, createdAt: string)
      modifies this`geofences, this`savedSettings
      ensures |geofences| == |old(geofences)| + 1 && geofences[..|old(geofences)|] == old(geofences)
      ensures geofences[|old(geofences)|] ==
                Geofence(id, name, latitude, longitude, EffectiveRadius(radius, geofenceRadius), createdAt)
      ensures savedSettings == Some(GeofenceSettings(geofencingEnabled, geofences, geofenceRadius))
    {
      var g := Geofence(id, name, latitude, longitude, EffectiveRadius(radius, geofenceRadius), createdAt);
      geofences := geofences + [g];
      SaveGeofencingSettings();
    }

    /** `removeGeofence`: drop every record with that id, keeping the others in order. */
    method RemoveGeofence(id: string)
      modifies this`geofences, this`savedSettings
      ensures geofences == Filter(old(geofences), KeyIsNot(GeofenceId, id))
      ensures forall g :: g in geofences ==> g.id != id
      ensures forall g :: g in old(geofences) && g.id != id ==> g in geofences
      ensures IsSubsequence(geofences, old(geofences))
      ensures savedSettings == Some(GeofenceSettings(geofencingEnabled, geofences, geofenceRadius))
    {
      FilterIsSubsequence(geofences, KeyIsNot(GeofenceId, id));
      geofences := Filter(geofences, KeyIsNot(GeofenceId, id));
      SaveGeofencingSettings();
    }

    /** `updateGeofenceRadius`: the new global radius, saved. */
    method UpdateGeofenceRadius(radius: int)
      modifies this`geofenceRadius, this`savedSettings
      ensures geofenceRadius == radius
      ensures savedSettings == Some(GeofenceSettings(geofencingEnabled, geofences, radius))
    {
      geofenceRadius := radius;
      SaveGeofencingSettings();
    }

    /**
     * `checkBirthdaysToday`: the table is pruned to today's keys and then marked for every
     * birthday falling today; every such birthday is notified, whatever the table held.
     */
    method CheckBirthdaysToday(today: Date, todayKey: string) returns (fired: seq<Birthday>)
      modifies this`shownToday
      ensures DailyCheck(old(shownToday), shownToday, todayKey, birthdays, today, fired)
    {
      var cleaned := PruneShown(shownToday, todayKey);
      shownToday := cleaned;
      fired := Filter(birthdays, IsBirthdayTodayFn(today));
      if |fired| == 0 {
        return;
      }
      shownToday := MarkShown(cleaned, todayKey, fired);
    }

    /** `checkAndSendUpdatedBirthdayNotification`: an edited birthday falling today has its
        key deleted and is notified again. */
    method CheckAndSendUpdatedBirthdayNotification(updated: Birthday, today: Date, todayKey: string)
      returns (fired: seq<Birthday>)
      modifies this`shownToday
      ensures fired == if IsBirthdayToday(updated, today) then [updated] else []
      ensures shownToday == ClearedForEdit(old(shownToday), todayKey, updated, today)
    {
      fired := [];
      if IsBirthdayToday(updated, today) {
        shownToday := shownToday - {Key(todayKey, EntityId(updated))};
        fired := [updated];
      }
    }

    /**
     * `addBirthday` with local storage. A missing name or date changes nothing. In edit mode the
     * stored record whose `_id || id` matches is replaced at its index (ids kept), and the edit
     * mode is left whether or not it was found; otherwise one record is appended. After a save
     * the in-memory list is reloaded from storage and today's notifications are run.
     */
    method AddBirthday(name: string, date: DateField, relationship: string, phoneInput: string,
                       emailInput: string, notes: string, photo: Option<string>, newId: string,
                       today: Date, todayKey: string)
      returns (outcome: SaveOutcome, fired: seq<Birthday>)
      modifies this`birthdays, this`storedBirthdays, this`editingBirthdayId, this`shownToday
      ensures name == "" || date.NoDate? ==>
                outcome == MissingFields && fired == []
                && birthdays == old(birthdays) && storedBirthdays == old(storedBirthdays)
                && editingBirthdayId == old(editingBirthdayId) && shownToday == old(shownToday)
      ensures name != "" && !date.NoDate? && old(editingBirthdayId) != "" ==>
                var form := FormRecord(userEmail, name, date, relationship, phoneInput, emailInput, notes, photo);
                var index := FirstIndex(old(storedBirthdays), KeyIs(LookupId, old(editingBirthdayId)));
                editingBirthdayId == ""
                && (index.None? ==>
                      outcome == EditTargetMissing && fired == []
                      && birthdays == old(birthdays) && storedBirthdays == old(storedBirthdays)
                      && shownToday == old(shownToday))
                && (index.Some? ==>
                      var updated := EditedRecord(old(storedBirthdays)[index.value], form, photo);
                      outcome == Updated
                      && storedBirthdays == old(storedBirthdays)[index.value := updated] && birthdays == storedBirthdays
                      && shownToday == ClearedForEdit(old(shownToday), todayKey, updated, today)
                      && fired == (if IsBirthdayToday(updated, today) then [updated] else []))
      ensures name != "" && !date.NoDate? && old(editingBirthdayId) == "" ==>
                var form := FormRecord(userEmail, name, date, relationship, phoneInput, emailInput, notes, photo);
                outcome == Added && editingBirthdayId == ""
                && storedBirthdays == old(storedBirthdays) + [form.(id := newId)] && birthdays == storedBirthdays
                && DailyCheck(old(shownToday), shownToday, todayKey, birthdays, today, fired)
    {
      if name == "" || date.NoDate? {
        return MissingFields, [];
      }
      var form := FormRecord(userEmail, name, date, relationship, phoneInput, emailInput, notes, photo);
      if editingBirthdayId != "" {
        outcome, fired := SaveEdit(form, photo, today, todayKey);
        return;
      }
      fired := AppendBirthday(form.(id := newId), today, todayKey);
      outcome := Added;
    }

    /** The edit branch of `addBirthday`. */
    method SaveEdit(form: Birthday, photo: Option<string>, today: Date, todayKey: string)
      returns (outcome: SaveOutcome, fired: seq<Birthday>)
      modifies this`birthdays, this`storedBirthdays, this`editingBirthdayId, this`shownToday
      ensures editingBirthdayId == ""
      ensures var index := FirstIndex(old(storedBirthdays), KeyIs(LookupId, old(editingBirthdayId)));
        outcome == (if index.Some? then Updated else EditTargetMissing)
      ensures outcome == EditTargetMissing ==>
                birthdays == old(birthdays) && storedBirthdays == old(storedBirthdays)
                && shownToday == old(shownToday) && fired == []
      ensures outcome == Updated ==>
                var i := FirstIndex(old(storedBirthdays), KeyIs(LookupId, old(editingBirthdayId))).value;
                var updated := EditedRecord(old(storedBirthdays)[i], form, photo);
                storedBirthdays == old(storedBirthdays)[i := updated] && birthdays == storedBirthdays
                && shownToday == ClearedForEdit(old(shownToday), todayKey, updated, today)
                && fired == (if IsBirthdayToday(updated, today) then [updated] else [])
    {
      var currentList := storedBirthdays;
      var index := FirstIndex(currentList, KeyIs(LookupId, editingBirthdayId));
      editingBirthdayId := "";
      if index.None? {
        return EditTargetMissing, [];
      }
      var updated := EditedRecord(currentList[index.value], form, photo);
      storedBirthdays := currentList[index.value := updated];
      birthdays := storedBirthdays;
      fired := CheckAndSendUpdatedBirthdayNotification(updated, today, todayKey);
      outcome := Updated;
    }

    /** The add branch of `addBirthday`. */
    method AppendBirthday(record: Birthday, today: Date, todayKey: string) returns (fired: seq<Birthday>)
      modifies this`birthdays, this`storedBirthdays, this`shownToday
      ensures storedBirthdays == old(storedBirthdays) + [record] && birthdays == storedBirthdays
      ensures DailyCheck(old(shownToday), shownToday, todayKey, birthdays, today, fired)
    {
      storedBirthdays := storedBirthdays + [record];
      birthdays := storedBirthdays;
      fired := CheckBirthdaysToday(today, todayKey);
    }

    /** `editBirthday`: enter edit mode for a birthday of the list; an unknown id changes nothing. */
    method EditBirthday(id: string) returns (found: bool)
      modifies this`editingBirthdayId
      ensures found <==> exists b :: b in birthdays && LookupId(b) == id
      ensures editingBirthdayId == if found then id else old(editingBirthdayId)
    {
      var index := FirstIndex(birthdays, KeyIs(LookupId, id));
      found := index.Some?;
      if found {
        editingBirthdayId := id;
      } else {
        assert forall b :: b in birthdays ==> LookupId(b) != id by {
          forall b | b in birthdays ensures LookupId(b) != id {
            var j :| 0 <= j < |birthdays| && birthdays[j] == b;
            assert !KeyIs(LookupId, id)(birthdays[j]);
          }
        }
      }
    }

    /** `deleteBirthday` with local storage: once confirmed, every stored record whose
        `_id || id` matches is dropped (the rest keep their order) and the list is reloaded. */
    method DeleteBirthday(id: string, confirmed: bool)
      modifies this`birthdays, this`storedBirthdays
      ensures !confirmed ==> birthdays == old(birthdays) && storedBirthdays == old(storedBirthdays)
      ensures confirmed ==> storedBirthdays == Filter(old(storedBirthdays), KeyIsNot(LookupId, id))
                            && birthdays == storedBirthdays
    {
      if confirmed {
        storedBirthdays := Filter(storedBirthdays, KeyIsNot(LookupId, id));
        birthdays := storedBirthdays;
      }
    }
  }

  function GeofenceId(g: Geofence): string
  {
    g.id
  }
}
