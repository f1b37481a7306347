# Birthday Buddy — a Dafny model of the client core

Birthday Buddy is a browser application that keeps a list of birthday contacts per user. It
notifies on the day of a birthday and can raise alerts when the user comes near a saved place
(a geofence). Everything lives in the browser's local storage. This project models its three
client classes:

- `AuthManager` (`auth.js`): the user store. It covers loading and validating users, login
  with a normalised e-mail, registration with its form checks, duplicate check, save and
  rollback, password reset, profile updates, preferences and logout.
- `BirthdayDashboard` (`dashboard.js`): the signed-in dashboard. It covers adding, editing
  and deleting birthdays in local storage, the days-until computation, the upcoming list and
  the next-birthday statistic. It also covers the per-day "shown today" table of the birthday
  check and the geofencing feature: settings, watch, location samples, proximity check and
  the status card.
- `BirthdayDashboard` (`script.js`): the older single-user page with add, delete and a
  find-only edit.

Local storage entries are fields of the classes (`storedUsers`, `storedBirthdays`,
`shownToday`, `savedSettings`, …). Each method states the new value of every field it may
change. The read-only computations are functions, and lemmas prove what the application
relies on about them. Examples are the validated round trip of the user list, the upcoming
list being the nearest birthdays in ascending order, the daily table holding only today's
keys, and the proximity check reporting exactly the geofences inside the radius.

Modules:

- `Wrappers`: `Option`.
- `Seqs`: `filter`, `findIndex` and the subsequence relation.
- `Text`: `trim`, ASCII `toLowerCase`, e-mail normalisation.
- `Calendar`: Gregorian day numbers and `getDaysUntilBirthday`.
- `Birthdays`: the record and its derived views.
- `ShownToday`: the per-day table.
- `Geofences`: geofences, proximity and status.
- `Dashboard`, `Auth` and `Script`: the three classes.

Conventions:

- JavaScript's falsy empty string is the empty string. `null`, `NaN` and "not found" are
  `None`.
- A local-storage JSON entry is `Absent`, `Unparsable` or `Parsed(value)`.
- The clock is an input. `Now` is today's date plus the milliseconds since local midnight, and
  `todayKey` is today's date string.
- The location samples, the permission answer, the watch handle and the distance function
  are inputs.
- Whether a storage write succeeds is an input (`saveOk`).

The upcoming list keeps day counts of at most 30. The model filters on `0 <= d <= 30`; the
lower bound changes nothing, because `Calendar.DaysUntilNonNegative` proves that a real date
never gives a negative count.

This year's occurrence is built the way the `Date` constructor builds it: a 29 February birth
date in a common year becomes 1 March. When that day has passed, only the year is advanced, so
the count runs to 1 March of next year even when next year is a leap year
(`Calendar.LeapDayBirthdayInCommonYear`).

## Model

| member | source | states |
|---|---|---|
| Text.TrimStartFacts | auth.js:351 | trimming the start returns a suffix of the input that does not start with white space, and everything removed is white space |
| Text.TrimEndFacts | auth.js:398 | trimming the end returns a prefix of the input that does not end with white space, and everything removed is white space |
| Text.TrimmedEnds | auth.js:398-399 | after `trim` neither end of the string is white space |
| Text.ToLower | auth.js:351 | lower-casing keeps the length, maps each upper-case ASCII letter to its lower-case letter (code point plus 32) and leaves every other character unchanged |
| Text.NormalizeEmail | auth.js:351 | the user key `trim().toLowerCase()` is no longer than the input and holds no upper-case ASCII letter |
| Text.EmailCaseInsensitive | auth.js:368 | two addresses that differ only in the case of ASCII letters normalise to the same user key |
| Text.NormalizeEmailIdempotent | auth.js:368 | normalising an e-mail that is already normalised changes nothing, so a stored normalised address matches itself |
| Seqs.Filter | dashboard.js:670 | `filter` keeps exactly the elements satisfying the predicate and never grows the list |
| Seqs.FilterCounts | dashboard.js:670 | `filter` keeps each element satisfying the predicate as many times as it occurs, and no other element |
| Seqs.FirstIndex | dashboard.js:1022 | `findIndex` returns the first index whose element satisfies the predicate, and -1 (None) exactly when no element does |
| Seqs.FilterIsSubsequence | dashboard.js:670 | filtering keeps the surviving elements in their original relative order |
| Seqs.FilterAppend | auth.js:465 | filtering a list with one element appended is filtering the list and then that element |
| Calendar.RolledDate | script.js:269 | `new Date(y, m, d)` with a day past the end of the month rolls into the next month and denotes the same day number as the unnormalised date |
| Calendar.DaysUntilBirthday | script.js:264-280 | the days-until count is a number exactly when the birth date is a real date (an empty or unparsable date gives NaN) |
| Calendar.DaysUntilInDays | script.js:268-278 | the count is the number of whole days from today to the occurrence day: this year's rolled-over date, or, once that is before now (counting the milliseconds), the same month and day of next year |
| Calendar.OccurrenceNotBeforeToday | script.js:272-274 | the occurrence counted to is never before today, and is today only at exactly midnight of this year's date |
| Calendar.DaysUntilNonNegative | dashboard.js:1358-1374 | for a real date the days-until count is a number, never negative, and 0 exactly at midnight of the birthday itself |
| Calendar.BirthdayTodayRollsOver | script.js:264-280 | a birthday that is today counts as passed once it is past midnight, so it is at least 365 days away |
| Calendar.TomorrowIsOneDay | script.js:264-280 | any birthday whose month and day fall on the day after today is 1 day away at every time of day |
| Calendar.LeapDayBirthdayInCommonYear | dashboard.js:1358-1374 | a 29 February birthday seen on 1 June 2023 is 274 days away: the rolled-over 1 March is what moves to next year |
| Birthdays.TodaysBirthdays | dashboard.js:1881-1893 | the birthdays falling today are exactly those of the list whose date is set and whose month and day are today's |
| Birthdays.YearIgnored | dashboard.js:1886-1891 | two birthdays whose dates differ only in the year fall today together and are the same number of days away |
| Birthdays.BirthdayTodayAtMidnight | dashboard.js:1881-1893 | a birthday falling today is 0 days away at midnight of today |
| Birthdays.DatedWhere | script.js:198-203 | the mapped-and-filtered list holds only birthdays of the list, with their true day counts inside the bounds, and every birthday with a count inside the bounds appears; a NaN count is dropped |
| Birthdays.InsertSorted | script.js:204 | inserting an entry into a list sorted by days until keeps it sorted |
| Birthdays.SortByDays | script.js:204 | the sort returns a permutation of its input in ascending order of days until |
| Birthdays.Upcoming | dashboard.js:1290-1299 | the upcoming list holds min(5, number of entries 0 to 30 days away) entries, in ascending order of days |
| Birthdays.UpcomingEntries | script.js:196-205 | the upcoming list has at most five entries, each a birthday of the list with its true count of at most 30 days, in ascending order |
| Birthdays.UpcomingAreNearest | dashboard.js:1290-1299 | the upcoming list holds min(5, number qualifying) of the qualifying entries, and no qualifying entry left out is nearer than one shown |
| Birthdays.NextBirthdayDays | script.js:248-256 | the next-birthday statistic, when there is one, is a positive day count |
| Birthdays.NextBirthdayIsMinimum | script.js:248-256 | the next-birthday statistic is None exactly when no birthday is a positive number of days away; otherwise it is the smallest positive count of some birthday |
| ShownToday.Key | dashboard.js:1903 | every key of the table starts with today's date string |
| ShownToday.Pruned | dashboard.js:1871-1879 | every entry kept has a key starting with today's date string and its old value |
| ShownToday.PrunedFacts | dashboard.js:1871-1879 | every entry whose key starts with today's date string is kept with its value |
| ShownToday.PruneShown | dashboard.js:1871-1879 | the clean-up loop over the keys produces the pruned table, whatever order the keys come in |
| ShownToday.MarkShown | dashboard.js:1902-1938 | the marking loop writes `true` under each of today's birthdays' keys, in list order |
| ShownToday.Marked | dashboard.js:1936-1937 | marking keeps every key of the table and every key it adds is true |
| ShownToday.MarkedFacts | dashboard.js:1936-1937 | marking adds exactly the birthdays' keys and leaves every other entry unchanged |
| ShownToday.MarkedAreTrue | dashboard.js:1936-1937 | after marking, every marked birthday's key is present and true |
| ShownToday.DailyTableFacts | dashboard.js:1863-1942 | after a daily check every key belongs to today, every earlier entry of today survives, and every birthday falling today is marked true |
| ShownToday.ClearedForEdit | dashboard.js:1944-1961 | the edit removes at most one key and changes no value |
| ShownToday.ClearedForEditFacts | dashboard.js:1944-1961 | an edit deletes only the edited birthday's key, and only when that birthday falls today |
| Geofences.NearbyAlerts | dashboard.js:560-581 | an alert is raised for a geofence exactly when the location is within the global radius of it, carrying the measured distance; none for other geofences |
| Geofences.CollectAlerts | dashboard.js:568-580 | the `forEach` over the geofences collects exactly the alerts of NearbyAlerts, in list order |
| Geofences.BoundaryIsInside | dashboard.js:571 | a geofence exactly at the radius raises an alert, since the boundary is inclusive |
| Geofences.OwnRadiusIgnored | dashboard.js:571 | a geofence beyond the global radius raises no alert, however large its own radius |
| Geofences.SignificantChange | dashboard.js:600-613 | the first fix is always a significant change, and a fix at the current location is not (for a distance that is 0 from a point to itself) |
| Geofences.StatusOf | dashboard.js:631-643 | the status card shows Active when enabled with a location, Loading when enabled without one, and Inactive when disabled |
| Dashboard.EffectiveRadius | dashboard.js:660 | an absent or zero radius falls back to the global radius; any other radius is kept |
| Dashboard.EditedRecord | dashboard.js:1024-1034 | an edited record takes the form's fields and keeps the original ids, so it is still found under the same id; it keeps the original photo unless a new one was uploaded |
| Dashboard.FormRecord | dashboard.js:993-1001 | the form record has no id yet, takes the form fields, trims phone and e-mail, and always has an owner |
| Dashboard.FormContactsTrimmed | dashboard.js:997-998 | the stored phone number and e-mail have no white space at either end |
| Dashboard.BirthdayDashboard.constructor | dashboard.js:3-30 | a new dashboard starts with an empty list, no edit in progress, geofencing off, no location, no geofences, no watch and a 1000 m radius |
| Dashboard.BirthdayDashboard.LoadBirthdays | dashboard.js:968-973 | the in-memory list becomes the stored list |
| Dashboard.BirthdayDashboard.SaveGeofencingSettings | dashboard.js:287-298 | the saved settings are the current enabled flag, geofences and radius |
| Dashboard.BirthdayDashboard.LoadGeofencingSettings | dashboard.js:251-285 | the saved settings are adopted (or the defaults: off, none, 1000 m), and the watch is resumed when they are enabled and geolocation is supported |
| Dashboard.BirthdayDashboard.StartGeofencing | dashboard.js:485-523 | without geolocation support nothing changes; otherwise the watch handle is the new one |
| Dashboard.BirthdayDashboard.StopGeofencing | dashboard.js:525-533 | the watch is cleared if there was one, and the location is forgotten |
| Dashboard.BirthdayDashboard.ToggleGeofencing | dashboard.js:300-328 | the feature is on exactly when it was enabled and permission was granted; a refusal leaves it off with the status Inactive; disabling stops the watch; the settings are saved either way |
| Dashboard.BirthdayDashboard.OnCurrentPosition | dashboard.js:538-546 | the one-shot position becomes the current location |
| Dashboard.BirthdayDashboard.CheckGeofences | dashboard.js:560-581 | with no location there are no alerts; otherwise exactly the alerts for geofences within the global radius |
| Dashboard.BirthdayDashboard.OnWatchPosition | dashboard.js:495-510 | a sample is adopted and checked only when there was no location or it moved more than 10 m; otherwise nothing changes and no alert is raised |
| Dashboard.BirthdayDashboard.AddGeofence | dashboard.js:654-667 | exactly one geofence is appended with the effective radius, the earlier ones are untouched, and the settings are saved |
| Dashboard.BirthdayDashboard.RemoveGeofence | dashboard.js:669-673 | every geofence with that id is removed, all others are kept in their order, and the settings are saved |
| Dashboard.BirthdayDashboard.UpdateGeofenceRadius | dashboard.js:801-805 | the global radius becomes the new value and is saved |
| Dashboard.BirthdayDashboard.CheckBirthdaysToday | dashboard.js:1863-1942 | the birthdays notified are exactly today's, and the table is pruned to today and marked for them |
| Dashboard.BirthdayDashboard.CheckAndSendUpdatedBirthdayNotification | dashboard.js:1944-1976 | an edited birthday falling today has its key deleted and is notified again; otherwise nothing happens |
| Dashboard.BirthdayDashboard.AddBirthday | dashboard.js:992-1090 | a missing name or date changes nothing; in edit mode the first stored record with a matching id is replaced in place and edit mode ends; a missing target changes no list; otherwise one record is appended, the list is reloaded and the daily check runs |
| Dashboard.BirthdayDashboard.SaveEdit | dashboard.js:1020-1066 | the edit replaces exactly the first stored record with the edited id, keeps its ids and leaves edit mode even when no record matches |
| Dashboard.BirthdayDashboard.AppendBirthday | dashboard.js:1068-1084 | exactly one record is appended to storage, the list is reloaded from it, and today's check runs on the new list |
| Dashboard.BirthdayDashboard.EditBirthday | dashboard.js:1384-1392 | edit mode is entered exactly when a birthday with that id is in the list; otherwise nothing changes |
| Dashboard.BirthdayDashboard.DeleteBirthday | dashboard.js:1425-1440 | once confirmed, every stored record with that id is dropped, the rest keep their order, and the list is reloaded; without confirmation nothing changes |
| Auth.ValidateUserData | auth.js:213-216 | a user entry is valid exactly when it exists and its id, name, e-mail and password are all non-empty |
| Auth.LoadUsers | auth.js:10-46 | loading yields the stored entries that pass validation, in stored order; nothing stored or unparsable text gives the empty list |
| Auth.LoadUsersFacts | auth.js:25-37 | a user is loaded exactly when it is stored and valid, and the loaded users keep their stored order |
| Auth.SaveLoadRoundTrip | auth.js:61-103 | writing a list of valid users and loading it back gives the same list |
| Auth.LoadCurrentUser | auth.js:48-59 | the stored session is used exactly when it parses and has an id and an e-mail |
| Auth.FindByEmail | auth.js:368 | the lookup returns the first user of the list whose normalised e-mail is the address, and None exactly when there is no such user |
| Auth.FoundByAnySpelling | auth.js:351-368 | a user is found by any typed spelling of its e-mail that normalises to the same address |
| Auth.FoundIgnoringCase | auth.js:351-368 | a user is found when its e-mail is typed with different capitals |
| Auth.RegisterFormCheck | auth.js:406-424 | each registration message is shown exactly when its check is the first to fail (blank field, mismatch, shorter than 6, terms), and the form passes otherwise |
| Auth.ResetFormCheck | auth.js:712-725 | each reset message is shown exactly when its check is the first to fail (blank field, shorter than 6, mismatch) |
| Auth.FormChecksAgree | auth.js:712-725 | the reset form accepts a password exactly when the registration form would, with terms agreed |
| Auth.NewUser | auth.js:443-450 | the new user carries the given fields, the uploaded photo when there is one and the placeholder image otherwise |
| Auth.RegisterKeepsEmailsUnique | auth.js:427-458 | appending a user whose normalised address is not yet taken keeps addresses unique |
| Auth.NewUserIsFound | auth.js:472-478 | after registration the new address finds the new user |
| Auth.SavedUserReadsBack | auth.js:472-478 | after a successful save, reloading and looking up the new address finds the new user, so the read-back check never fails |
| Auth.RollbackRestores | auth.js:463-469 | when no earlier user has the new id, the rollback of a failed save restores the previous list exactly |
| Auth.RollbackDropsSameId | auth.js:465 | the rollback filters by id, so an earlier user sharing the new id is lost too |
| Auth.ApplyPatch | auth.js:825 | each supplied field replaces the current one and every other field is kept |
| Auth.PatchIdempotent | auth.js:825 | applying the same updates twice equals applying them once, and empty updates change nothing |
| Auth.MergePreferences | auth.js:176-178 | merged preferences have the keys of both, the updates win, and every other key keeps its value |
| Auth.Preferences | auth.js:184-191 | the stored preferences are used when they parse, and the empty object otherwise |
| Auth.AuthManager.constructor | auth.js:3-8 | a new manager holds the valid stored users and the stored session |
| Auth.AuthManager.SaveUsers | auth.js:61-103 | a successful save writes the current list; a failed one writes nothing and reports failure |
| Auth.AuthManager.SaveCurrentUser | auth.js:105-113 | the session entry becomes the given user |
| Auth.AuthManager.Login | auth.js:349-395 | empty input is refused before reading; otherwise users are reloaded, an unknown address or a wrong password is refused, and only a matching password signs in and saves the session |
| Auth.AuthManager.Register | auth.js:397-492 | the first failing form check is reported; a taken address or invalid record is refused; a failed save rolls the new id back; otherwise the new user is appended, saved and signed in |
| Auth.AuthManager.Enroll | auth.js:458-486 | a failed save filters the new id out and writes nothing; a successful one stores the list with the new user and signs that user in |
| Auth.AuthManager.ResetPassword | auth.js:706-761 | the first failing form check is reported; an unknown address changes nothing but the reload; otherwise the first matching user gets the new password and the list is saved |
| Auth.ResetTouchesOneEntry | auth.js:739-746 | with unique ids the reset changes only the matched user |
| Auth.AuthManager.UpdateUserProfile | auth.js:822-834 | without a session nothing changes; otherwise the merged user becomes the session and replaces the first user with its id |
| Auth.AuthManager.GetUserPreferences | auth.js:184-191 | returns the stored preferences, or the empty object |
| Auth.AuthManager.SaveUserPreferences | auth.js:174-182 | the stored preferences become the current ones overridden by the updates |
| Auth.AuthManager.Logout | auth.js:763-768 | the session and the remember-me flag are cleared |
| Script.FormRecord | script.js:102-108 | the record built by the form carries the name, date, relationship, notes and id it was given |
| Script.BirthdayDashboard.constructor | script.js:3-4 | the list is the stored list |
| Script.BirthdayDashboard.AddBirthday | script.js:101-128 | a missing name or date changes nothing; otherwise exactly one record is appended and the list is written back |
| Script.BirthdayDashboard.DeleteBirthday | script.js:299-309 | once confirmed, every record with that id is dropped, the others keep their order, and the list is written back |
| Script.BirthdayDashboard.EditBirthday | script.js:290-297 | the lookup finds a record with that id exactly when one exists, and changes nothing |

## Left out

- The haversine distance and `deg2rad` are not modelled: the distance in kilometres is a function parameter. Comparisons use exact reals, not IEEE doubles.
- The DOM is not modelled. This covers rendering, `showMessage`, pop-ups, forms, navigation, the avatar upload reader and the `setTimeout` delays.
- Sending notifications is not modelled. This covers the Notification API, `sendBirthdayNotification` and the WhatsApp links; the model returns the list of birthdays that would be notified.
- The geolocation API is reduced to inputs. Its permission answer, watch handle and position samples are parameters, and watch errors and the HTTPS check are not modelled. `requestLocationPermission` is the `Permission` argument, and "unsupported" is the `supported` flag.
- Date parsing, time zones and `toDateString` are not modelled. Dates come in already parsed; today and today's key string are inputs.
- JSON serialisation is not modelled: storage entries hold values. Storage availability and quota failures are the `saveOk` flag.
- Dashboard.BirthdayDashboard.DeleteBirthday: the API branches of `deleteBirthday` and `loadBirthdaysFromAPI` are not modelled. `fetch` never runs, because the API URL is always null.
- Text.ToLower: only ASCII letters are case-folded; `toLowerCase` on other scripts is not modelled.
- Auth.RegisterFormCheck: a password's length counts Dafny characters rather than UTF-16 code units.
- Auth.ResetFormCheck: a password's length counts Dafny characters rather than UTF-16 code units.
- Auth.AuthManager.Login: the login timestamp (`saveLoginTime`) is not modelled, because it needs the clock. A failure of `saveCurrentUser` is not modelled either; it only logs and shows a message.
- Auth.AuthManager.UpdateUserProfile: `Object.assign` copying an explicitly `undefined` value is not modelled. A field is either supplied with a string or absent.
- Aliasing is not modelled. `currentUser` and an entry of the user list can be the same object in the source; the model keeps them as values and writes both explicitly where the source writes one object.
- Dashboard.BirthdayDashboard.UpdateGeofenceRadius: `parseInt` of a non-numeric input (NaN) is not modelled; the radius is an integer.
- The "this month" count of `updateStats` is a direct month comparison with no property worth stating, so it is not modelled.
- Page initialisation, the login redirects and the event wiring are not modelled.
- The remaining page actions are not modelled: export, import, `clearAllData`, `retryLocationPermission` and the background-location and location-sharing toggles. They only move data to files or flip display flags.
- The shown-today table is written but never read before notifying. Every birthday falling today is notified on every check, and the model states exactly that.
- The Express server (`server.js`) is not part of this model.
