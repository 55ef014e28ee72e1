# Contact details of a local-currency partner directory, in Dafny

This project models the contact-detail core of a directory of partners of a
local currency (a Laravel application):

- **PostalAddress** (`app/PostalAddress.php`): an address kept as its
  components (`recipient`, `street`, `street_number`, `letter_box`,
  `postal_code`, `city`, `latitude`, `longitude`, `is_geolocatable`), with
  validation of the required components and of the four-digit postal code,
  writes by camelCase or snake_case name, reads by camelCase name, a compact and a
  postal-mail rendering as text and as HTML, the shallow `asPostalMail()`
  copy, and the `saving` hook that copies the city into the owning location.
- **Website** (`app/Website.php`): a URL stored without its scheme plus a
  `useHttps` flag, the `clean` step (trim, then remove every `http://`, then
  every `https://`), the rebuilt full URL, and the reload hook that restores
  the flag from a stored full URL.
- **Partner** (`app/Partner.php`): its validation state, its head-office
  postal address (get, set), phone and e-mail (get, set, remove), the cities of its
  locations (deduplicated, sorted, joined), the currency-exchange query and
  draft creation.

Module layout:

- `Php.dfy` models the PHP and Laravel built-ins the core relies on:
  - values with `empty()` and the string cast
  - `trim` and `str_replace` with an empty replacement
  - `ucfirst`, `Str::snake` and `Str::startsWith`
  - string-keyed arrays with `array_merge`
  - `array_unique`, `sort` and `implode`
- `ContactDetails.dfy` holds the envelope that every contact detail shares: its label, its visibility, and the other attributes of its record.
- `PostalAddresses.dfy`, `Websites.dfy` and `Partners.dfy` follow the three classes.

Where the code works on values the model uses functions and lemmas. Where the code updates objects, the model uses classes with `modifies` frames:
- an address's components object is shared by its copies, as PHP's shallow `clone` shares it
- a partner's lists of addresses, phones and e-mails
- the location's cached city

Behaviour of the code worth knowing, which the model keeps:

- `modify()` validates the address after every single key, not once per batch. A batch whose merged result would be valid is therefore refused when the address is invalid before the batch and an early key leaves it invalid (`ModifyValidatesEachKey`). The same happens when one batch writes a component twice, under both of its spellings, and the first value is refused. Starting from a valid address, with each component written at most once, every validity condition reads one component, so checking after each key and checking once at the end agree (`ModifyAgreesWithWriteAll`).
- `asPostalMail()` makes a shallow copy that shares the components object with the original. It is not an independent copy.
- A write to `url` tests the *cleaned* text for `https://`, not the raw argument. The write therefore clears the flag for any ordinary URL (`UrlWriteClearsFlag`), whereas `fromUrl` tests the raw argument (`Websites.Website.FromUrl`).
- The postal-code check is `preg_match('#^[0-9]{4}$#', …)` without the `D` modifier, so a code followed by one newline is accepted (`TrailingNewlineAccepted`).

## Model

| member | source | states |
|---|---|---|
| Php.Text | app/PostalAddress.php:136 | the string cast of a value is empty or "0" exactly when PHP's `empty()` holds for it |
| Php.Trim | app/Website.php:53 | the result is the infix of the input left after removing only blanks at either end; it starts and ends with a non-blank, keeps a trimmed string whole, and is empty exactly when the input is all blanks |
| Php.UcFirst | app/PostalAddress.php:109 | `ucfirst` keeps the length and every character but the first; a lower-case first letter becomes the matching upper-case letter, any other first character is kept |
| Php.Snake | app/PostalAddress.php:183 | `Str::snake` leaves no capital letter and returns a name without capitals unchanged |
| Php.MergeToMap | app/Partner.php:317 | `array_merge` of string-keyed arrays maps each key to the later array's value when it has one, else to the earlier one's |
| Php.Unique | app/Partner.php:412 | `array_unique` returns a duplicate-free list with exactly the members of its input |
| Php.SortCorrect | app/Partner.php:415 | `sort` returns a sorted permutation of its input |
| Php.SortedDistinctUnique | app/Partner.php:412-415 | two sorted duplicate-free lists with the same members are equal, so the sorted unique list is determined by the set of members |
| ContactDetails.EnvelopeWrite | app/Website.php:165-168 | a write the variant does not claim sets the label, the visibility (as a boolean cast) or one attribute, and leaves the other two untouched |
| ContactDetails.EnvelopeRead | app/Website.php:141 | a read the variant does not claim returns the label, the visibility, or the stored attribute of that name, and null for a name never stored |
| PostalAddresses.FirstMissing | app/PostalAddress.php:133-141 | a reported component is one of the required names and is empty |
| PostalAddresses.FirstMissingNone | app/PostalAddress.php:135-141 | no component is reported exactly when every required component is non-empty |
| PostalAddresses.ValidateAddress | app/PostalAddress.php:131-150 | the loop over the required components and the pattern test raise exactly the error the validation rule defines |
| PostalAddresses.AddressValidIff | app/PostalAddress.php:131-150 | an address is accepted exactly when street, postal code and city are non-empty and the postal code matches the four-digit pattern |
| PostalAddresses.MissingPartReported | app/PostalAddress.php:133-141 | the first empty component among street, postal code, city (in that order) is the one named by the error |
| PostalAddresses.InvalidPostalCodeRejected | app/PostalAddress.php:143-149 | with every required component present, a postal code off the pattern is refused with that code in the error |
| PostalAddresses.ZeroCountsAsMissing | app/PostalAddress.php:136 | a street named "0" counts as missing, as PHP's `empty` says |
| PostalAddresses.TrailingNewlineAccepted | app/PostalAddress.php:145 | a postal code of four digits and a final newline passes, since `$` without `D` matches before it |
| PostalAddresses.BothSpellingsOneKey | app/PostalAddress.php:198-212 | the camelCase and snake_case names of a two-word component are stored under the same snake_case key |
| PostalAddresses.StreetNumberKey | app/PostalAddress.php:200-212 | `streetNumber` is stored under `street_number` |
| PostalAddresses.GeoNameKey | app/PostalAddress.php:180-183 | latitude and longitude are both readable and writable by their own names, which are their keys |
| PostalAddresses.WriteComponent | app/PostalAddress.php:198-216 | a component write stores the value under the snake_case key, leaves every other component and the envelope as they were, and reports what validation of the whole address reports |
| PostalAddresses.ReadAfterWrite | app/PostalAddress.php:171-216 | a component written by its camelCase name reads back as the value written |
| PostalAddresses.ModifyKeepsValid | app/PostalAddress.php:89-98 | a modification of a valid address that raises no error leaves a valid address |
| PostalAddresses.ModifyFailureLeavesInvalidParts | app/PostalAddress.php:89-98 | when a modification throws, there is a key at which it failed: the writes before it succeeded, it names a component, and the final components are that write applied after them (nothing is rolled back), so they hold the offending value and fail validation with the error thrown |
| PostalAddresses.ModifyValidatesEachKey | app/PostalAddress.php:91-95 | validation runs after each key: a batch whose merged result is valid is still refused when an earlier key leaves the address invalid |
| PostalAddresses.ModifyAgreesWithWriteAll | app/PostalAddress.php:89-98 | from a valid address, a batch that writes each component at most once raises no error exactly when the address holding all its writes, checked once at the end, is valid |
| PostalAddresses.StreetLineModes | app/PostalAddress.php:107-120 | the street line is the capitalised street, then the number when present; the postal-mail line adds ` bte ` and the letter box when one is given |
| PostalAddresses.CompactHtmlCarriesText | app/PostalAddress.php:301-307 | the compact HTML holds the street line and the city, each between its element's opening and closing tags |
| PostalAddresses.PostalHtmlCarriesRecipient | app/PostalAddress.php:286-288 | the postal-mail HTML holds the recipient between the `p-name` opening tag and its closing `</p>` |
| PostalAddresses.PostalHtmlCarriesStreet | app/PostalAddress.php:290-292 | the postal-mail HTML holds the postal-mail street line between the street-address opening tag and its closing `</span>` |
| PostalAddresses.PostalHtmlCarriesPostalCode | app/PostalAddress.php:293 | the postal-mail HTML holds the postal code between the postal-code opening tag and its closing `</span>` |
| PostalAddresses.PostalHtmlCarriesCity | app/PostalAddress.php:294 | the postal-mail HTML holds the city between the locality opening tag and its closing `</span>` |
| PostalAddresses.CompactIgnoresPostalParts | app/PostalAddress.php:273 | two addresses with the same street, number and city render identically in compact mode, as text and as HTML |
| PostalAddresses.PostalRenderingDiffers | app/PostalAddress.php:264-273 | for a valid address the postal-mail text is longer than the compact text by at least the postal code and its separators |
| PostalAddresses.PostalAddress.constructor | app/PostalAddress.php:68 | a new address is compact, unlabelled, private and unowned |
| PostalAddresses.PostalAddress.FromArray | app/PostalAddress.php:66-80 | an address is created exactly when validation passes, holding the given components in a fresh components object, compact and private; otherwise the validation error is reported |
| PostalAddresses.PostalAddress.Set | app/PostalAddress.php:195-222 | a write changes the address state exactly as the write rule says (component plus validation, or envelope) and nothing else |
| PostalAddresses.PostalAddress.Modify | app/PostalAddress.php:89-98 | the instance itself is returned, and its state is that of the writes applied in order, stopping at the first error |
| PostalAddresses.PostalAddress.AsPostalMail | app/PostalAddress.php:230-237 | a fresh copy in postal-mail format sharing the original's components object, envelope and owner; the original is untouched |
| PostalAddresses.PostalAddress.HasGeoCoordinates | app/PostalAddress.php:244-247 | true exactly when both latitude and longitude are non-null |
| PostalAddresses.PostalAddress.ReadComponent | app/PostalAddress.php:180-183 | the coordinates read back from their own components |
| PostalAddresses.PostalAddress.Saving | app/PostalAddress.php:45-56 | an address owned by a location copies its city into the location's cache; any other owner is left unchanged |
| Websites.Clean | app/Website.php:51-58 | cleaning never lengthens a URL and turns an all-blank one into the empty string |
| Websites.FullUrlRestoresFlag | app/Website.php:65-70 | a full URL starts with `https://` exactly when it was built with the flag set |
| Websites.CanonicalParts | app/Website.php:51-58 | a URL that cleaning leaves unchanged is trimmed and contains neither scheme |
| Websites.RoundTrip | app/Website.php:51-70 | a canonical URL survives the full-URL round trip: cleaning gives it back, the scheme gives back the flag, and rebuilding is idempotent |
| Websites.CleanNotIdempotent | app/Website.php:55 | removing one `http://` can join the halves of another, so cleaning twice differs from cleaning once |
| Websites.CleanCanLeaveLeadingSpace | app/Website.php:53-55 | trimming happens before the schemes are removed, so a blank after a scheme survives cleaning |
| Websites.Website.FromUrl | app/Website.php:38-49 | the stored URL is the cleaned argument and the flag says whether the raw argument starts with `https://` |
| Websites.Website.Hydrate | app/Website.php:112-121 | a reloaded website starts from the stored text with the flag unset |
| Websites.Website.PopulateContactDetailProperties | app/Website.php:112-121 | a stored URL starting with `https://` sets the flag and never clears it; the stored URL is then cleaned |
| Websites.Website.Read | app/Website.php:130-142 | `url` reads as the scheme the flag names followed by the cleaned stored URL, `urlWithoutProtocol` as the stored URL, `useHttps` as the flag, and any other name through the envelope |
| Websites.Website.PersistedUrl | app/Website.php:100-105 | the `url` property, `__toString()` and the persisted `url` attribute are the same text, which starts with `https://` exactly when the flag is set, and cleans back to a canonical stored URL |
| Websites.Reload | app/Website.php:100-121 | reloading what a website persisted restores its envelope and its flag for every stored URL, and its stored and full URL when the stored URL is canonical |
| Websites.Website.Set | app/Website.php:150-170 | a write changes the website's state exactly as the write rule says |
| Websites.Write | app/Website.php:150-170 | a `url` write stores the cleaned text and sets the flag from that cleaned text; a `useHttps` write sets only the flag, to the value's boolean cast; any other name is written into the envelope alone |
| Websites.UseHttpsWrite | app/Website.php:162-164 | writing `useHttps` changes the flag alone, so the full URL switches scheme around the same stored URL |
| Websites.UseHttpsReadBack | app/Website.php:130-164 | the flag written through `useHttps` reads back as its boolean cast, and the stored URL reads back unchanged |
| Websites.UrlReadBack | app/Website.php:130-158 | a canonical URL written with either scheme reads back without its scheme, and its full URL reads back with `http://` |
| Websites.ReloadRoundTrip | app/Website.php:100-121 | reloading a persisted full URL whose rest is canonical restores the stored URL, the flag and the full URL |
| Websites.FromUrlRoundTrip | app/Website.php:38-49 | `fromUrl` on a full URL whose rest is canonical keeps rest and scheme, so its full URL is the argument |
| Websites.UrlWriteClearsFlag | app/Website.php:153-156 | a `url` write of a canonical URL with either scheme stores the URL without its scheme and clears the flag, because the flag is read from the cleaned text |
| Websites.UrlWriteCanSetFlag | app/Website.php:153-156 | a `url` write can still set the flag when cleaning joins the halves of a new `https://`: `hhttps://ttps://x` is stored as `https://x` with the flag set |
| Partners.FindByLabel | app/Partner.php:332-335 | the entry found carries the label and no earlier entry does; nothing is found exactly when no entry carries it |
| Partners.UpsertExisting | app/Partner.php:337-345 | an existing head-office entry gets the new value and visibility in place; every other entry is unchanged |
| Partners.UpsertAbsent | app/Partner.php:345-351 | without a head-office entry exactly one private-or-public labelled entry is appended |
| Partners.UpsertThenFind | app/Partner.php:337-352 | after setting, the head-office entry is found with the new value and visibility |
| Partners.UpsertKeepsOneHeadOffice | app/Partner.php:337-352 | setting keeps exactly one head-office entry when there was at most one |
| Partners.RemoveDropsHeadOffice | app/Partner.php:354-357 | removal deletes the first head-office entry and keeps the others in order, and changes nothing when there is none |
| Partners.RemoveLeavesNoHeadOffice | app/Partner.php:354-357 | with at most one head-office entry, none is found after removal |
| Partners.CitiesTextSpec | app/Partner.php:410-417 | the cities text is null exactly when no city was gathered, and otherwise joins the sorted, duplicate-free list of exactly the gathered cities |
| Partners.CitiesTextOrderFree | app/Partner.php:410-417 | the cities text depends only on which cities occur, not on their order or repetition |
| Partners.CitiesTextExample | app/Partner.php:410-417 | two locations in Moulinsart and one in Las Dopicos give "Las Dopicos, Moulinsart" |
| Partners.DraftAttributes | app/Partner.php:26-31 | a draft is saved with `is_draft` true and the caller's other mass-assignable attributes, and nothing outside the fillable columns |
| Partners.AddressPartsRecipient | app/Partner.php:317 | the caller's recipient wins; without one the partner's name is the recipient; every other component is the caller's |
| Partners.CitiesOf | app/Partner.php:401-408 | at most one city per location, and none exactly when no location has a postal address |
| Partners.CitiesOfSnoc | app/Partner.php:401-408 | a further location adds its address's city at the end, or nothing when it has no address |
| Partners.Partner.CreateAsDraft | app/Partner.php:293-298 | a new partner holds the draft attributes, is not validated and has no contact details yet |
| Partners.Partner.Validate | app/Partner.php:230-234 | the validation date is now and nothing else changes |
| Partners.Partner.ValidateBy | app/Partner.php:243-248 | the validator is the team member and the validation date is now, nothing else changes |
| Partners.Partner.Invalidate | app/Partner.php:255-260 | validation date and validator are cleared, so the partner is not validated, nothing else changes |
| Partners.Partner.HasCurrencyExchange | app/Partner.php:135-144 | true exactly when some location has a currency exchange |
| Partners.Partner.LocationCities | app/Partner.php:395-418 | the result is the cities text of the cities of the locations that have a postal address, in location order |
| Partners.Partner.SetHeadOfficeAddress | app/Partner.php:300-330 | an existing head-office address is modified key by key with the partner's name as the default recipient, and it keeps its components object, format and owner. Otherwise a new valid address is attached, or the validation error is reported and nothing is attached. Only the head-office address may change. Without earlier addresses, a successful set makes the new address the head office with exactly the merged components. Behind a first address without the head-office label, the attached address is never returned as the head office |
| Partners.Partner.AttachHeadOfficeAddress | app/Partner.php:323-328 | a valid address is created fresh, labelled for the head office, made private and appended; an invalid one is reported and nothing changes |
| Partners.Partner.SetHeadOfficePhone | app/Partner.php:337-352 | the phones become the head-office upsert of the old phones; nothing else changes |
| Partners.Partner.RemoveHeadOfficePhone | app/Partner.php:354-357 | the phones lose their head-office entry; nothing else changes |
| Partners.Partner.SetHeadOfficeEmail | app/Partner.php:366-381 | the e-mails become the head-office upsert of the old e-mails; nothing else changes |
| Partners.Partner.RemoveHeadOfficeEmail | app/Partner.php:383-386 | the e-mails lose their head-office entry; nothing else changes |

## Left out

- Persistence is not modelled: Eloquent `save()`, `create()`, `delete()`, relations, global scopes and dates. Saving is taken to succeed. A deleted entry is removed from the partner's list, and `now()` is a parameter.
- Exceptions (`DomainException`) become error results. The state reached before the throw is kept.
- The saving hook is modelled as its own method. `SetHeadOfficeAddress` does not invoke it, because that save goes through Eloquent.
- `Partners.Partner.GetHeadOfficeAddress` takes the `postalAddress` morph-one relation as the first of the partner's addresses.
- `findPhoneByLabel` is not part of this model. It is taken as the first phone whose label matches, as the e-mail lookup does.
- `Phone::fromNumber`, `Email::fromAddress`, `withLabel` and `setVisibility` are not part of this model. They are taken as storing the value given, with the label set and the visibility cast to a boolean.
- `Partners.Partner.LocationCities` sorts by code point. It does not use the locale collation of `SORT_LOCALE_STRING`.
- Latitude and longitude are held as strings, since only their presence matters to the core.
- `Websites.Website.Set` leaves out the write to `urlWithoutProtocol`. That write assigns an undeclared property through the magic setter itself.
- Website `asLink()` and `toHtml()` are not modelled, because they call the HTML helper from the framework.
- `isRecent()` is not modelled, because it depends on the clock and on dates.
- `getOwnAttributes()` of a postal address is not modelled. It returns the components object.
- `Location::hasCurrencyExchange()`, which `hasCurrencyExchange()` of a partner calls, is not defined in `app/Location.php`. The call would reach Eloquent's `__call`. The model gives each location a boolean field holding its answer.
- The `postalAddress` relation of a location, which `locationCities()` reads, is not defined in `app/Location.php` either. Read literally, it would always be null and `locationCities()` would always return null. The model follows the unit test in `tests/Unit/PartnerTest.php`, which attaches an address to each location through `postalAddress()` and expects "Las Dopicos, Moulinsart". It gives each location an optional address field (`PostalAddresses.Location.postalAddress`).
- The base contact-detail class is reduced to its label, its visibility and its attribute map.
- ContactDetails.EnvelopeRead: a detail that was never labelled reads its label as the empty string. In the source that label is null.
- Php.Snake: the model handles the ASCII camelCase and snake_case names the core passes. It does not model how `Str::snake` treats white space ("a b" becomes "a_b") or non-ASCII capitals (`mb_strtolower`), so its second clause holds only for such names.
- The following are not part of this model: `SocialNetwork`, the map generator, the controllers and the scopes `active`/`former`.
