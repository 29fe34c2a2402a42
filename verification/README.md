# Housekeeper Bee core, modelled in Dafny

Housekeeper Bee watches a Zigbee network through a zigbee2mqtt broker. It
raises temperature alerts and answers chat commands that switch plugs,
press buttons and report device state. This project models its core as
pure functions over immutable data and proves what that core promises.

- **Alert engine** (`AlertEngine`).
  - The temperature range table and its first-match classification.
  - The per-location cooldown.
  - Reading extraction from MQTT payloads and topics.
  - The confirmation step that stamps the cooldown clock and picks the notification scope.
- **Device registry** (`DeviceRegistry`).
  - The map of known devices, kept in insertion order.
  - How it changes on `bridge/devices` lists and on device messages.
  - Its type and online filters.
- **Query protocol** (`Correlation`).
  - `getDeviceState` / `getDeviceProperty` as a state machine over subscribe, timer, message and publish-error events.
  - The JSON request payload, with a proved string-literal round trip.
  - The command publish.
- **Device commands** (`DeviceCommands`).
  - `switchOnPlug`, `switchOffPlug` and `clickButton` as one decision over the device list, the probed state and the publish result.
  - The device-state report.
- **Chat shaping** (`ChatShaping`).
  - The tool table and the help text.
  - The newline collapse and trim at the end of the HTML clean-up.
  - Deduplication of tool results, the history trim, and the reply taken from a model answer without tool calls.
  - The message time-to-live setting and the access check.
- **Session store** (`SessionStore`).
  - The Redis-backed conversation cache.
  - Redis is a map from key to text and remaining seconds.
- **Support modules.**
  - `Values` holds JavaScript values, truthiness and number coercion.
  - `Text` holds split/join, trim, lower-casing and decimal numerals.

Inputs the code reads from the outside world arrive as parameters:
- the clock (`now`, `answeredAt`);
- the JSON decoding of a message;
- the language model's answers;
- the probed device state;
- whether a publish succeeded;
- the environment settings.

Behaviours of the code worth noting:
- The temperature bands are closed at the top, so 10 is "Cool" and 36 is "Very hot".
- A state message for a device not in the registry is dropped.
- A bulk device list resets every listed device to `lastSeen = now`, status "unknown" and no last data.
- There is no busy check around a probe.
- A timed-out probe leaves its message handler registered until a message arrives on its topic.
- A failed confirmation call is not treated as "Yes". The caller gets an error text, which counts as "No" unless it happens to contain "Yes".
- A bare numeric message such as `23.5` is valid JSON. It decodes to a number, which has none of the fields the extraction reads, so it yields no reading. Only text that is not JSON but starts with a number, such as `23.5C`, takes the `parseFloat` fallback.
- A model answer without a `message` never reaches the `data.message == null` test at line 1130 of `src/lib/housekeeper-bee-ai-tools.js`. Reading `data.message.tool_calls` at line 1088 throws first. The `catch` then replies "Oops! Something Wrong! " followed by the error, and deletes the chat's session. The text "I cannot handle it." is never sent.
- A state probe whose reply is not JSON rejects with "Failed to parse device state: " and the parser's message. A property probe rejects with "Failed to parse response: " and the message. The device report shows that text on its second line.
- The command handlers test `devices.filter(...)`, which is always truthy. The probe therefore runs even for a name that is not listed.

## Model

| member | source | states |
|---|---|---|
| AlertEngine.GetTemperatureStatus | src/index.js:219-227 | the result is the status of the first range in table order that contains the reading, or "Unknown" when none does |
| AlertEngine.FirstMatchDecides | src/index.js:219-224 | whenever range i is the first containing the reading, the status is range i's, whatever the later ranges say |
| AlertEngine.TableClassification | src/index.js:61-67 | the configured bands with inclusive upper ends: 0-10 Cool, (10,20] Good, (20,30] Hot, (30,36] Very hot, above 36 Extremely hot, negative or NaN Unknown |
| AlertEngine.EveryNonNegativeReadingIsClassified | src/index.js:61-67 | no non-negative reading is "Unknown", because the last band is open above |
| AlertEngine.CooldownWindow | src/index.js:233-251 | a location without a stamp is always due; with a stamp it is due exactly when at least cooldown×60000 ms have passed |
| AlertEngine.ShouldGenerateAlert | src/index.js:233-251 | a location without a stamp is due; a NaN cooldown never suppresses; otherwise due exactly when at least cooldown×60000 ms have passed |
| AlertEngine.NaNCooldownNeverSuppresses | src/index.js:233-251 | a cooldown setting that is not a number never suppresses an alert |
| AlertEngine.ExtractDeviceInfo | src/index.js:182-213 | throws exactly on a null payload; yields no reading exactly when both candidates are null or NaN; otherwise carries both candidates through parseFloat and keeps the topic |
| AlertEngine.ZeroTemperatureFallsThrough | src/index.js:186 | a temperature of 0 is falsy, so the candidate falls through to `value` |
| AlertEngine.NumericTemperatureIsRead | src/index.js:186-207 | a non-zero numeric temperature always produces a reading with that temperature |
| AlertEngine.ZigbeeTopicParsing | src/index.js:193-197 | on a zigbee2mqtt topic the device id is the segment after the first slash, and the location defaults to it |
| AlertEngine.TopicDeviceId | src/index.js:193-199 | the device id never holds a slash; off the zigbee2mqtt prefix it is never empty, and a topic without a slash gives "unknown" |
| AlertEngine.OtherTopicParsing | src/index.js:193-200 | on other topics the device id is the second-to-last segment, and the location defaults to "unknown" |
| AlertEngine.Confirm | src/index.js:298-316 | the alert map is either untouched or stamped at the location's key; a stamp needs a "Yes" answer; a notification implies the stamp |
| AlertEngine.ProcessTemperatureReading | src/index.js:256-265 | the status is the table's classification; critical means strictly above the threshold; suppression happens exactly when the cooldown says no; a stamp needs a "Yes" |
| AlertEngine.StampOnlyOnYes | src/index.js:298-302 | the stamp is written exactly when the cooldown allows and the temperature answer is text and one of the answers says "Yes" |
| AlertEngine.AlertScope | src/index.js:306-316 | with text answers, the scope is "Temperature & Humidity", "Temperature", "Humidity" or nothing, by which answers say "Yes" |
| AlertEngine.StampWithoutNotification | src/index.js:298-306 | a "Yes" for temperature with a humidity answer that is not text stamps the location and then aborts without a notification |
| AlertEngine.CriticalDoesNotGate | src/index.js:256-265 | the critical threshold changes neither the stamp nor the outcome |
| AlertEngine.FailedConfirmationsSendNothing | src/index.js:357-363 | when both model calls fail with error texts that contain no "Y", nothing is stamped and nothing is sent |
| AlertEngine.MessagePayload | src/index.js:158-167 | a JSON message is taken as decoded; otherwise the message is dropped exactly when parseFloat of its text is NaN |
| AlertEngine.HandleMqttMessage | src/index.js:154-176 | a message is dropped exactly when it has no payload; extraction throws exactly on a null payload; a reading is evaluated exactly when extraction yields one, and then by `processTemperatureReading` on that reading; only an evaluated reading changes the alert map |
| AlertEngine.HandlerStampsOnlyOnYes | src/index.js:154-176 | for every message, the location's stamp is written exactly when a reading is extracted, the cooldown allows it and an answer says "Yes"; otherwise the stamps are unchanged |
| AlertEngine.NonNumericTextIsDropped | src/index.js:160-166 | text that is neither JSON nor starts with a number changes nothing |
| AlertEngine.NumberWithUnitIsTemperature | src/index.js:158-171 | a positive number followed by a unit, which is not JSON, is classified on a device topic as that temperature; a 0 yields no reading |
| AlertEngine.NumberMessagePayload | src/index.js:161-164 | text that is not JSON and starts with a decimal numeral becomes `{temperature: n}` |
| AlertEngine.BareNumberHasNoReading | src/index.js:158-191 | a message that decodes to a bare number yields no reading and leaves the alert map unchanged |
| AlertEngine.ZeroPayloadHasNoReading | src/index.js:186-191 | a payload whose only field is a temperature of 0 yields no reading |
| AlertEngine.PlainYesSaysYes | src/index.js:298 | the plain answer "Yes" counts as yes |
| AlertEngine.SplitLastTwo | src/index.js:193-199 | a topic ending in `/id/last`, with no slash in id or last, splits into the head's segments followed by id and last |
| Text.ContainsIffOccurs | src/index.js:298 | `includes` holds exactly when the text occurs at some position |
| Values.OrChainPicksFirstTruthy | src/index.js:186-187 | an `a \|\| b \|\| …` chain gives the first truthy operand when there is one |
| Values.ParseFloatOfNatText | src/index.js:161 | `parseFloat` of a decimal numeral, with or without a unit after it, is the numeral's value |
| Values.NumberOfNatText | src/lib/housekeeper-bee-ai-tools.js:451 | `Number` of a decimal numeral is its value |
| DeviceRegistry.KeyOf | src/lib/zigbee-devices.js:81 | a device is keyed by its friendly name, or by its IEEE address when the name is empty |
| DeviceRegistry.Insert | src/lib/zigbee-devices.js:81-85 | `Map.set` keeps the registry well formed, updates the one key, and appends a new key at the end of the order |
| DeviceRegistry.UpdateDevicesList | src/lib/zigbee-devices.js:78-90 | the registry stays well formed and consistent, and the old insertion order stays a prefix of the new one |
| DeviceRegistry.UpdateDevicesListContents | src/lib/zigbee-devices.js:79-87 | after a list, each key holds the listing of its last non-coordinator entry, and keys the list does not name are unchanged |
| DeviceRegistry.EmptyListChangesNothing | src/lib/zigbee-devices.js:78-90 | an empty list leaves the registry as it was |
| DeviceRegistry.UpdateDeviceStatus | src/lib/zigbee-devices.js:93-103 | an unknown name changes nothing; a known one gets the data, the time and status online; every other device is unchanged |
| DeviceRegistry.HandleMessage | src/lib/zigbee-devices.js:46-75 | the device-list topic goes to `updateDevicesList` (nothing when the body is not JSON); the registry stays well formed and consistent, and only the bridge device list can change the key order |
| DeviceRegistry.DeviceListFillsRegistry | src/lib/zigbee-devices.js:51-54 | after a message on the device-list topic, every listed key holds its last listing and every other key is kept as it was |
| DeviceRegistry.DeviceNameOf | src/lib/zigbee-devices.js:59 | the device name is what follows the base topic and slash |
| DeviceRegistry.DeviceMessageTouchesOneDevice | src/lib/zigbee-devices.js:58-66 | a JSON message on a device topic updates only that device, and only when it is registered |
| DeviceRegistry.BridgeTopicsChangeNothing | src/lib/zigbee-devices.js:58 | other bridge topics are ignored |
| DeviceRegistry.NonJsonChangesNothing | src/lib/zigbee-devices.js:64-70 | a message that is not JSON changes nothing |
| DeviceRegistry.GetDevices | src/lib/zigbee-devices.js:106-108 | the devices come out in key insertion order, one per key |
| DeviceRegistry.GetDevicesListsEveryRecord | src/lib/zigbee-devices.js:106-108 | a record is listed exactly when some key holds it |
| DeviceRegistry.GetDevicesByType | src/lib/zigbee-devices.js:111-116 | keeps exactly the devices whose lower-cased definition model or model id contains the lower-cased type |
| DeviceRegistry.GetDevicesByTypeInOrder | src/lib/zigbee-devices.js:111-116 | the result is the matching positions of getDevices, each once, in increasing order |
| DeviceRegistry.TypeFilterIgnoresCase | src/lib/zigbee-devices.js:111-116 | the type filter gives the same answer for a type and its lower-case form |
| DeviceRegistry.EmptyTypeSelectsModelled | src/lib/zigbee-devices.js:111-116 | the empty type selects exactly the devices that carry a model or a model id |
| DeviceRegistry.GetOnlineDevices | src/lib/zigbee-devices.js:119-124 | keeps exactly the devices seen within the last five minutes |
| DeviceRegistry.GetOnlineDevicesInOrder | src/lib/zigbee-devices.js:119-124 | the result is the recently seen positions of getDevices, each once, in increasing order |
| DeviceRegistry.FilterPositions | src/lib/zigbee-devices.js:112-123 | `filter` keeps exactly the positions whose element passes, in increasing order |
| DeviceRegistry.FilterAppend | src/lib/zigbee-devices.js:112-123 | filtering a concatenation concatenates the filtered parts |
| DeviceRegistry.FilterSingleton | src/lib/zigbee-devices.js:112-123 | one element is kept exactly when it passes |
| DeviceRegistry.OnlineWindow | src/lib/zigbee-devices.js:119-124 | a device updated at t counts as online at a later time exactly while less than 300000 ms have passed |
| Correlation.JsonQuoteRoundTrip | src/lib/zigbee-devices.js:270 | the JSON string literal of the property name reads back as the name |
| Correlation.UnescapeEscape | src/lib/zigbee-devices.js:270 | unescaping undoes escaping for every string |
| Correlation.EscapeCharReadsBack | src/lib/zigbee-devices.js:270 | unescaping one escaped character followed by any text gives that character in front of the text's own reading |
| Correlation.PlainPayload | src/lib/zigbee-devices.js:270 | a property name without quotes, backslashes or control characters is sent as `{"name":""}` |
| Correlation.StatePropertyRequest | src/lib/zigbee-devices.js:223 | asking for the property "state" sends the same request payload as a full state query |
| Correlation.Start | src/lib/zigbee-devices.js:186-277 | a new exchange is pending and coherent, and it subscribes to the state topic and then publishes to the get topic |
| Correlation.Settle | src/lib/zigbee-devices.js:193-215 | a promise settles once: later outcomes are ignored |
| Correlation.ReplyOutcome | src/lib/zigbee-devices.js:211-263 | a reply that does not parse rejects with the query's parse-failure text and the error's message; a state query resolves with the body; a property query resolves only with a truthy value or null |
| Correlation.Step | src/lib/zigbee-devices.js:191-276 | one event keeps the query, keeps a settled outcome, preserves coherence, and only ever unsubscribes the exchange's own topic |
| Correlation.SettlesOnce | src/lib/zigbee-devices.js:199-216 | once settled, no sequence of events changes the outcome |
| Correlation.RunKeepsCoherent | src/lib/zigbee-devices.js:186-231 | coherence holds along any sequence of events |
| Correlation.RunOnlyUnsubscribesOwnTopic | src/lib/zigbee-devices.js:200-226 | the only action the events cause is unsubscribing from the device's own state topic |
| Correlation.ReplySettles | src/lib/zigbee-devices.js:205-218 | a reply on the state topic settles the exchange, unsubscribes, removes the handler and disarms the timer |
| Correlation.OtherTopicsIgnored | src/lib/zigbee-devices.js:206 | messages on other topics change nothing |
| Correlation.TimeoutLeavesListener | src/lib/zigbee-devices.js:199-202 | a timeout rejects and unsubscribes but leaves the handler on; a later reply unsubscribes again and only then removes the handler |
| Correlation.FalsyPropertyIsNull | src/lib/zigbee-devices.js:260 | a missing or falsy property resolves as null |
| Correlation.NullReplyRejectsProperty | src/lib/zigbee-devices.js:258-263 | a property query answered with JSON null rejects with "Failed to parse response: " and the message of the failed property read |
| Correlation.PublishFailureCleanup | src/lib/zigbee-devices.js:223-276 | a failed publish cleans up fully for a state query, but for a property query leaves the subscription and handler in place |
| Correlation.ConcurrentProbesShareReply | src/lib/zigbee-devices.js:205-213 | two concurrent probes of one device both resolve with the same reply |
| Correlation.PublishCommand | src/lib/zigbee-devices.js:281-289 | a command is published to `zigbee2mqtt/<address>/set` for the given address, with retain off and the message unchanged |
| Correlation.CommandAddressReadsBack | src/lib/zigbee-devices.js:282 | the address is read back from the command topic, so different addresses never share a topic |
| Correlation.CommandTopicIsNotStateTopic | src/lib/zigbee-devices.js:282 | a command topic is never a device's state topic |
| DeviceCommands.ProbeOf | src/lib/zigbee-devices.js:185-279 | a resolved probe carries its state, and a rejected one carries the rejection's text |
| DeviceCommands.Operate | src/lib/housekeeper-bee-ai-tools.js:257-345 | the reply is one the handler can give; without a device list nothing is probed; "Failed" appears exactly when a publish was attempted and failed; any publish is a retain-off command |
| DeviceCommands.CommandSentExactly | src/lib/housekeeper-bee-ai-tools.js:261-334 | a command is sent exactly when there is a list, the probe answered, the mode matches, the state calls for it and a listed device has the name; it goes to the first such device's IEEE address |
| DeviceCommands.SwitchOnOnlyWhenOff | src/lib/housekeeper-bee-ai-tools.js:267-269 | switch-on sends `{ "state": "ON" }`, and only to a switch that reports "OFF" |
| DeviceCommands.SwitchOffOnlyWhenOn | src/lib/housekeeper-bee-ai-tools.js:298-300 | switch-off sends `{ "state": "OFF" }`, and only to a switch that reports "ON" |
| DeviceCommands.AlreadyOnSendsNothing | src/lib/housekeeper-bee-ai-tools.js:268-273 | a switch not reporting "OFF" answers "Already On" and sends nothing |
| DeviceCommands.ClickToggles | src/lib/housekeeper-bee-ai-tools.js:330-332 | a click goes only to a device in click mode and sends the opposite of its reported state |
| DeviceCommands.UnlistedNameIsStillProbed | src/lib/housekeeper-bee-ai-tools.js:262-265 | a name absent from the list is still probed, yet nothing is sent |
| DeviceCommands.MissingModeIsUnsupported | src/lib/housekeeper-bee-ai-tools.js:267-276 | a state without a mode is "Unsupported Device Type." |
| DeviceCommands.TemperatureUnit | src/lib/housekeeper-bee-ai-tools.js:368-380 | the unit is Fahrenheit exactly when `temperature_units` is truthy and not "celsius" |
| DeviceCommands.FieldLinesFollowTable | src/lib/housekeeper-bee-ai-tools.js:377-389 | the report lines are the table's rows in order, one per truthy field |
| DeviceCommands.TableLinesCount | src/lib/housekeeper-bee-ai-tools.js:377-389 | the table gives exactly one line per truthy field |
| DeviceCommands.StateLines | src/lib/housekeeper-bee-ai-tools.js:372-393 | a failed probe gives the error caption and message; an answer starts with the device name; a falsy state gives only the name; a truthy state is followed by the field table's lines |
| DeviceCommands.FormatDeviceState | src/lib/housekeeper-bee-ai-tools.js:389-393 | a failed probe reports the caption and the failure's text on two lines, and a falsy state reports the name alone |
| DeviceCommands.ParseFailureReport | src/lib/zigbee-devices.js:211-216 | a state reply that is not JSON makes the report's second line "Failed to parse device state: " and the parser's message |
| DeviceCommands.ReportStartsWithName | src/lib/housekeeper-bee-ai-tools.js:374-395 | the first line of the joined report is the device name |
| DeviceCommands.ReportLinesRoundTrip | src/lib/housekeeper-bee-ai-tools.js:395 | splitting the joined report at newlines gives back its lines |
| ChatShaping.Displayed | src/lib/housekeeper-bee-ai-tools.js:352-353 | the listed tools are exactly the table's tools marked for display |
| ChatShaping.HelpEntriesNumbering | src/lib/housekeeper-bee-ai-tools.js:352-358 | the k-th displayed tool gets number counter+k, then its detail, then a blank line |
| ChatShaping.HelpTitleLine | src/lib/housekeeper-bee-ai-tools.js:348-363 | help line 1+3k is "k+1. title" of the k-th displayed tool, and the next line is its detail |
| ChatShaping.ToolTableFlags | src/lib/housekeeper-bee-ai-tools.js:742-971 | of the thirteen tools only showAllStorageBoxes and countStorageBoxes are hidden |
| ChatShaping.HelpListsElevenTools | src/lib/housekeeper-bee-ai-tools.js:348-363 | the help lists eleven tools in 35 lines |
| ChatShaping.ShowHelp | src/lib/housekeeper-bee-ai-tools.js:348-363 | the help text opens with the header line and closes with the footer line, whatever the table holds |
| ChatShaping.CollapseNewlines | src/lib/housekeeper-bee-ai-tools.js:133 | collapsing is empty only on empty text and keeps whether the text starts with a newline |
| ChatShaping.CollapseKeepsText | src/lib/housekeeper-bee-ai-tools.js:133 | collapsing changes only newlines: the other characters stay, in order |
| ChatShaping.CollapseLeavesNoTriple | src/lib/housekeeper-bee-ai-tools.js:133 | the result never holds three newlines in a row |
| ChatShaping.CollapseFixesNoTriple | src/lib/housekeeper-bee-ai-tools.js:133 | text without three newlines in a row is left unchanged |
| ChatShaping.CollapseIdempotent | src/lib/housekeeper-bee-ai-tools.js:133 | collapsing twice is collapsing once |
| ChatShaping.SanitizeTail | src/lib/housekeeper-bee-ai-tools.js:133-134 | the cleaned text has no triple newline and no white space at either end |
| ChatShaping.TrimKeepsNoTriple | src/lib/housekeeper-bee-ai-tools.js:134 | trimming text without three newlines in a row leaves none |
| ChatShaping.FirstOccurrencesContents | src/lib/housekeeper-bee-ai-tools.js:1122-1124 | the kept results are distinct and hold exactly the values of the input |
| ChatShaping.FirstOccurrencesOfDistinct | src/lib/housekeeper-bee-ai-tools.js:1122-1124 | results that are already distinct are kept as they are |
| ChatShaping.DeduplicateResults | src/lib/housekeeper-bee-ai-tools.js:1122-1126 | the loop keeps the first occurrence of each result, so the output is distinct and has the same values |
| ChatShaping.ToolResultsReply | src/lib/housekeeper-bee-ai-tools.js:1122-1126 | when every result is a single line, splitting the reply gives the distinct results in first-seen order |
| ChatShaping.TrimHistory | src/lib/housekeeper-bee-ai-tools.js:1116-1118 | a history longer than five loses exactly its first five messages; a shorter one is kept |
| ChatShaping.HistoryGrowth | src/lib/housekeeper-bee-ai-tools.js:1116-1118 | with at most five messages added the saved history never passes max(old length, 5); adding more than five grows it |
| ChatShaping.LastNonBlank | src/lib/housekeeper-bee-ai-tools.js:1139 | the chosen line is non-blank and every later line is blank |
| ChatShaping.NoToolReply | src/lib/housekeeper-bee-ai-tools.js:1088-1152 | a missing message throws: the reply is "Oops! Something Wrong! " and the error, and the session is deleted exactly then; missing or empty content gives "Sorry I don't know."; otherwise the reply is the last element of the non-blank lines (`filter(...).pop()`), which is the last non-blank line, and undefined exactly when every line is blank |
| ChatShaping.PopIsLastNonBlank | src/lib/housekeeper-bee-ai-tools.js:1139 | the filtered non-blank lines are empty exactly when no line is non-blank, and otherwise their last element is the line LastNonBlank finds |
| ChatShaping.MissingMessageDropsHistory | src/lib/housekeeper-bee-ai-tools.js:1144-1152 | after a missing message the reply is the error text and the chat's history reads back as [] |
| ChatShaping.SessionAfter | src/lib/housekeeper-bee-ai-tools.js:1150 | the session is deleted exactly when the turn ends in the catch-all error |
| ChatShaping.BlankContentIsUndefined | src/lib/housekeeper-bee-ai-tools.js:1136-1139 | content made only of white space yields undefined |
| ChatShaping.TtlMinutes | src/lib/housekeeper-bee-ai-tools.js:450-451 | the time-to-live is between 5 and 720 minutes: the setting when it is a number in range, otherwise 15 |
| ChatShaping.TtlFallback | src/lib/housekeeper-bee-ai-tools.js:451 | a setting that is not a number or is out of range gives 15 |
| ChatShaping.TtlFromDigits | src/lib/housekeeper-bee-ai-tools.js:451 | a decimal setting within range is taken as is |
| ChatShaping.AccessNeedsExactlyOneMatch | src/lib/housekeeper-bee-ai-tools.js:455-458 | the match count is one exactly when one position holds a loosely equal id and no other does; two matching ids make the count other than one |
| ChatShaping.OnlyMatchCountsOne | src/lib/housekeeper-bee-ai-tools.js:455-458 | a sender matched at exactly one position is counted once |
| ChatShaping.Allowed | src/lib/housekeeper-bee-ai-tools.js:455-458 | access is granted exactly when one allowed id is loosely equal to the sender and no other is; two matching ids deny it |
| ChatShaping.SingleIdGrants | src/lib/housekeeper-bee-ai-tools.js:455-458 | one matching id grants access whether written as text or number; the same id listed twice denies it |
| SessionStore.NewStore | src/lib/redis-manager.js:5-24 | the expiry defaults to 30 minutes |
| SessionStore.Key | src/lib/redis-manager.js:33 | the key is the prefix, a colon, then the chat id |
| SessionStore.KeysSeparateStores | src/lib/redis-manager.js:33 | for prefixes without a colon, equal keys mean equal prefixes and equal chat ids |
| SessionStore.Save | src/lib/redis-manager.js:32-35 | a save stores the value with expiryMinutes×60 seconds, and throws without writing when that is not positive |
| SessionStore.SaveArray | src/lib/redis-manager.js:38-42 | the encoded array is stored with expiryMinutes×60 seconds |
| SessionStore.GetArray | src/lib/redis-manager.js:60-64 | a missing or empty value reads as [], and anything else is parsed; nothing is written |
| SessionStore.GetAndRefresh | src/lib/redis-manager.js:67-79 | a missing or empty value gives null and writes nothing; otherwise the stored text is returned and re-stored unchanged with expiryMinutes×60 seconds, and the call throws when that is not positive |
| SessionStore.GetArrayAndRefresh | src/lib/redis-manager.js:45-57 | a missing or empty value gives null and writes nothing; otherwise the text is re-stored unchanged with expiryMinutes×60 seconds before the parse, and the result is the parse or a throw |
| SessionStore.ReadAndRefresh | src/lib/redis-manager.js:45-79 | the shared read: null when absent, a throw when the expiry is not positive, otherwise the text re-stored with the full expiry |
| SessionStore.Get | src/lib/redis-manager.js:82-85 | the stored text exactly when the key is present, without touching its expiry |
| SessionStore.Del | src/lib/redis-manager.js:87-90 | the key is gone, the count says whether it was there, and no other key changes |
| SessionStore.RefreshTtl | src/lib/redis-manager.js:93-108 | with no value it returns false and writes nothing; with a value and a positive expiry it returns true, the value is unchanged and the expiry is the new minutes when given and non-zero, else the store's; with a value and a non-positive expiry it throws and writes nothing |
| SessionStore.RefreshThenTtlInfo | src/lib/redis-manager.js:93-108 | after a successful refresh the TTL info reports exactly the refresh's minutes and no seconds |
| SessionStore.RefreshMinutes | src/lib/redis-manager.js:102 | a null or zero new expiry falls back to the store's |
| SessionStore.DecodeTtl | src/lib/redis-manager.js:115-132 | −2 is missing, −1 never expires, and otherwise the total and the "Expires in Xm Ys" message are reported |
| SessionStore.GetTtlInfo | src/lib/redis-manager.js:111-133 | the info exists exactly when the key is present, and never expires exactly when it has no expiry |
| SessionStore.FloorDiv | src/lib/redis-manager.js:123 | `Math.floor(a / b)` is the whole number q with q×b ≤ a < (q+1)×b |
| SessionStore.JsRem | src/lib/redis-manager.js:124 | JavaScript's `%` truncates: the remainder takes the dividend's sign and puts the dividend back together with the truncated quotient |
| SessionStore.TtlInfoOfKey | src/lib/redis-manager.js:111-133 | a stored chat with an expiry reports "expiring", and minutes×60 + seconds gives back its TTL with seconds below 60 |
| SessionStore.KeysSeparateChats | src/lib/redis-manager.js:33 | two chats of one store never share a key |
| SessionStore.TtlSplitsIntoMinutes | src/lib/redis-manager.js:123-124 | for a TTL ≥ 0, minutes×60 + seconds is the TTL and 0 ≤ seconds < 60 |
| SessionStore.SaveThenGet | src/lib/redis-manager.js:32-85 | a saved value reads back and other chats' values are untouched |
| SessionStore.SaveArrayThenGetArray | src/lib/redis-manager.js:38-64 | an array saved with a round-tripping codec reads back through getArray |
| SessionStore.DelThenGetArray | src/lib/redis-manager.js:60-116 | after deletion the history reads as [] and the TTL info says missing |
| SessionStore.EmptyTextIsAbsent | src/lib/redis-manager.js:49-97 | an empty stored text counts as absent for every read, though the TTL info still sees the key |
| SessionStore.RefreshIdempotent | src/lib/redis-manager.js:45-79 | refreshing twice leaves Redis as refreshing once |
| SessionStore.ZeroExpiryFallsBack | src/lib/redis-manager.js:102 | refreshTTL with 0 minutes behaves like refreshTTL with none |

## Left out

- I/O: the MQTT connection, Telegram, the language model, Docker restarts and the Ollama health check are left out. Their results arrive as parameters.
- Timers and the clock: `now`, `answeredAt` and the probe timer are events or parameters. The countdown of a Redis expiry is not modelled; `Expires(seconds)` is the time left when read.
- JSON: `JSON.parse` arrives as an `Option` (None when it throws). `JSON.stringify` of an array is a parameter. Arrays are not distinguished from objects.
- Numbers: JavaScript numbers are reals or NaN. Infinity, exponents and hexadecimal are not parsed, and `String(x)` of a non-integer is an exact decimal cut after 20 fraction digits.
- Lower-casing covers ASCII letters only.
- A missing `friendly_name` or `ieee_address` is the empty string.
- The tag and entity replacements of `sanitizeHtmlForTelegram` before line 133, and `removeEmptyRowsRegex`, are not modelled; only the collapse and trim are.
- `getAllZigbeeDevice`: its network request is not modelled. Its device list arrives as a parameter.
- ChatShaping.ShowHelp: the contract does not state that splitting the help on newlines gives its 35 lines back. That needs every title and detail of the tool table to be free of newlines, and proving this for the long text constants is beyond the solver's budget here.
- The other tools of the assistant (storage boxes, server status, device lists, prompt history) and the tool dispatch loop are not modelled.
- DeviceCommands.Operate: `publishMsgToDevice` returns what mqtt.js `publish` returns, which is the client object and so always truthy. The model takes the returned truthiness as a parameter (`published`), so the "Failed" reply is modelled even though with this client it cannot occur.
- SessionStore.Save: expiry minutes are integers. A fractional minute count, which Redis would refuse as a non-integer, is not modelled.
- SessionStore.DecodeTtl: the seconds are proved in range only for TTL ≥ 0. That is every value Redis returns besides −1 and −2, and JavaScript's truncating `%` is modelled for the others.
- ChatShaping.TtlMinutes: `TLG_TTL_IN_MINUTE` is compared as JavaScript compares a string with a number, through `Number`, with the same limits as above on number text.
- Concurrency: each MQTT message is modelled as one atomic update of the alert stamps. In the code, index.js:105-106 calls `handleMQTTMessage` without `await`. Between reading the stamp in `shouldGenerateAlert` (index.js:238-247) and writing it (index.js:302), the handler awaits `checkOllamaHealth` (index.js:148) and two `callOllamaModel` calls (index.js:295-296). Two messages for one location arriving inside that window both pass the cooldown and can both notify; interleavings of this kind are not modelled.
- The connection handling of the session store (`connect`, `close`, `quit`, `checkConnection`) is not modelled.
