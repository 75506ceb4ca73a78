# Churn ETL pipeline, modelled in Dafny

This project models the batch pipeline that turns a streaming service's raw
user and event exports into churn features, retention cohorts, a trained churn
classifier with a tuned decision threshold, scored predictions, user segments
and two data-quality reports. Each Python stage is one Dafny module:

| stage | module | file |
|---|---|---|
| `validate_users` (cleaning of the users export) | `CleanUsers` | `clean_users.dfy` |
| `validate_events` (cleaning of the events export) | `CleanEvents` | `clean_events.dfy` |
| `build_features` (per-user event pivot, activity, sessions, ratios, engagement) | `FeatureTable` | `build_features.dfy` |
| `generate_features` (recency, frequency, diversity) | `GenerateFeatures` | `generate_features.dfy` |
| `build_retention_cohorts` (monthly cohorts, D7/D30 counts, churn label) | `Cohorts` | `cohorts.dfy` |
| `prepare_model_data` (key checks, join, leakage drop, one-hot, scaling, split) | `PrepareModelData` | `prepare_model_data.dfy` |
| `pick_threshold_by_recall`, `evaluate_at_threshold`, `train_and_eval_models` | `TrainModel` | `train_model.dfy` |
| `load_artifact`, `align_features`, `predict` (scoring and top-N export) | `PredictChurn` | `predict_churn.dfy` |
| `segment_users` (variable choice, k by silhouette, cluster summary) | `UserSegmentation` | `user_segmentation.dfy` |
| `auditoria_calidad` (completeness, uniqueness, referential, temporal, domains) | `AuditQuality` | `audit_quality.dfy` |
| `auditoria_relacional` (valid/orphan events, active users, per-user counts) | `AuditRelational` | `audit_relational.dfy` |

Shared modules: `Common` (Option/Result, counting, `np.argmax`, `str.replace`,
basename, number formatting), `Sorting` (a stable sort by a total preorder and
`drop_duplicates(keep="first")`), `Frames` (a column-typed table with pandas'
dtypes and nulls, and the `DataFrame` class whose methods drop and assign
columns in place) and `Records` (typed user and event rows, whole days and
calendar months of a timestamp).

Stages whose schema is fixed (cleaning, cohorts, the 30 and 10 feature
builders) work on typed rows; stages whose columns depend on the data (model
preparation, scoring, segmentation, audits, the 10 output table) work on the
generic table. In the generic-table stages, where the Python mutates a frame
in place (column drops, column assignment, the fill loops, the k loop, report
lists built by appends), the model is a method over the `DataFrame` class or a
method with a loop, each proved equal to a specification function; the
properties are proved about those functions. In the typed-row stages the
in-place updates are pure functions from rows to rows (see "Left out").

Timestamps are integer seconds and dates are midnight seconds; a value that
failed to parse is `None`. Library numerics are parameters: the
precision/recall curve, ROC AUC and `predict_proba` outputs, the scaler (a
per-column function), the train/test split (two index lists), KMeans labels
and silhouette scores, the wall-clock stamp and the `describe()` statistics.

Where the design description and the code disagree, the model follows the
code:
- the threshold search scans the curve from index 0, the lowest threshold,
  and returns the first point meeting both floors; raising the floors never
  picks an earlier index while the higher floors are still feasible, but when
  only the lower floors are feasible the F1 fallback may pick any index, so
  the "monotonic in the recall floor" statement holds only in the feasible case;
- the top-N export sorts with pandas' default (non-stable) sort; the model
  uses a stable sort, which is one of the orders that sort may produce.

As with pandas' `isin`, a null event `user_id` counts as known when the users
table also holds a null id.

## Model

| member | source | states |
|---|---|---|
| `CleanUsers.ValidateUsers` | etl/01_clean_users.py:13-51 | With a required column missing, the input comes back unchanged and the report lists the missing names in required order. Otherwise the label column is gone. The three null counts are those of the input, before any swap or drop. The inversion count is taken on the normalised rows. Dropped-null-id + duplicates-removed + kept rows equals the input rows. The output is a deduplication of the repaired rows. |
| `CleanUsers.Without` | etl/01_clean_users.py:22-24 | The remaining column names are exactly the old ones other than the dropped name (`churned_30d` here). |
| `CleanUsers.RepairedHasNoLabel` | etl/01_clean_users.py:22-24 | No repaired row carries a `churned_30d` cell. |
| `CleanUsers.Normalize` | etl/01_clean_users.py:27-28 | A null date stays null; a date becomes the midnight that starts its own day (a whole number of days, at most the input, less than one day before it). |
| `CleanUsers.PreparedKeepsNulls` | etl/01_clean_users.py:27-33 | Normalising and dropping the label keep the null counts of `user_id`, `signup_date` and `last_active_date`, and the date swap keeps the null-id count, so the reported counts are the raw input's. |
| `CleanUsers.FixInverted` | etl/01_clean_users.py:36-39 | Row count and user ids are kept, and afterwards no row has signup after last activity. |
| `CleanUsers.FixInvertedNoop` | etl/01_clean_users.py:36-39 | With no inverted row, the swap changes nothing. |
| `CleanUsers.DropNullIds` | etl/01_clean_users.py:42-44 | Keeps exactly the rows that have a user id; kept rows + null-id rows = rows before. |
| `CleanUsers.RowLeTotalPreorder` | etl/01_clean_users.py:47 | The sort key (user id ascending, last activity descending, nulls last) is a total preorder, so the sort is well defined. |
| `CleanUsers.DeduplicateAscending` | etl/01_clean_users.py:47-51 | After sorting and keeping the first row per id, ids strictly ascend, so each id appears once. |
| `CleanUsers.DeduplicateKept` | etl/01_clean_users.py:47-48 | Every kept row is one of the repaired input rows. |
| `CleanUsers.DeduplicateCovers` | etl/01_clean_users.py:47-48 | Every non-null id of the input keeps a row. |
| `CleanUsers.DeduplicateLatestOf` | etl/01_clean_users.py:47-48 | The row kept for an id has the latest `last_active_date` of all that id's input rows, nulls ranked last. |
| `CleanUsers.DeduplicateLatest` | etl/01_clean_users.py:47-48 | Same on any row list: sorting then keeping the first row per id keeps the latest activity. |
| `CleanUsers.DropAndDeduplicate` | etl/01_clean_users.py:42-51 | Dropping null ids then deduplicating yields unique ascending ids, input rows only, every id covered, latest activity kept. |
| `CleanUsers.CleanRowsFacts` | etl/01_clean_users.py:42-51 | The cleaned rows of a frame are a deduplication of its repaired rows. |
| `CleanEvents.ValidateEvents` | etl/02_clean_events.py:13-40 | With a required column missing, the input comes back unchanged with only the missing names. Otherwise the three null counts are the input's. `duplicates_removed` + output rows = input rows, and it is at least the null-uuid count. `received_before_event` is counted on the output only when `received_at` exists; `created_before_received` only when both columns exist. The output is a deduplication of the input. |
| `CleanEvents.DropNullUuids` | etl/02_clean_events.py:29-30 | Keeps exactly the rows with a uuid; kept + null-uuid rows = rows before. |
| `CleanEvents.RowLeTotalPreorder` | etl/02_clean_events.py:31 | The (uuid, timestamp, nulls last) order is a total preorder. |
| `CleanEvents.DeduplicateAscending` | etl/02_clean_events.py:31-32 | The kept rows have strictly ascending uuids, so no uuid repeats. |
| `CleanEvents.DeduplicateKept` | etl/02_clean_events.py:30-32 | Every kept row is an input row with a uuid. |
| `CleanEvents.DeduplicateCovers` | etl/02_clean_events.py:30-32 | Every non-null uuid of the input keeps a row. |
| `CleanEvents.DeduplicateEarliestOf` | etl/02_clean_events.py:31-32 | The row kept for a uuid has the earliest timestamp among that uuid's rows, nulls ranked last. |
| `CleanEvents.DeduplicateEarliest` | etl/02_clean_events.py:31-32 | Same on any row list: sorting then keeping the first row per uuid keeps the earliest timestamp. |
| `CleanEvents.CleanRowsFacts` | etl/02_clean_events.py:29-33 | The cleaned rows are a deduplication of the raw rows: unique ascending uuids, input rows only, every uuid covered, earliest timestamp kept. |
| `FeatureTable.UserTable` | etl/10_build_features.py:53 | One row per user, and the columns are the seven fixed user columns in order. |
| `FeatureTable.PivotTypes` | etl/10_build_features.py:19-25 | The pivot's type columns are exactly the event types seen on events with a user id, each once. |
| `FeatureTable.MergedColumnCell` | etl/10_build_features.py:54-56 | A left-merged cell is the part's value for that user's id, or null when the id has no group. |
| `FeatureTable.MergedNamesDistinct` | etl/10_build_features.py:54-56 | The merged column names are distinct (no merge suffixes arise) and none is a ratio or engagement name. |
| `FeatureTable.MergedWellFormed` | etl/10_build_features.py:53-56 | The merged table is rectangular with one row per user and distinct names. |
| `FeatureTable.MergedTypeColumn` | etl/10_build_features.py:19-56 | For a type seen in the events, `ev_<type>` exists, is numeric, and holds the user's count of that type, or null for a user absent from the pivot. |
| `FeatureTable.TypeCountOutside` | etl/10_build_features.py:22 | A user absent from the pivot has a count of 0 for every type (the pivot's fill value). |
| `FeatureTable.MergedCountColumn` | etl/10_build_features.py:26-27 | Without an `event_type` column, `ev_count` holds each user's event count, or null when the user has no events. |
| `FeatureTable.MergedCountPresence` | etl/10_build_features.py:26-56 | `ev_count` is merged exactly when some event has a user id (an empty part is skipped). |
| `FeatureTable.MergedActiveDays` | etl/10_build_features.py:30-56 | `active_days` exists exactly when some event has a user and a timestamp, and holds the number of distinct dates of the user's events, null for users without dated events. |
| `FeatureTable.MergedSessions` | etl/10_build_features.py:38-56 | `sessions` and `avg_events_per_session` exist exactly when the session column exists and some event has a session; `sessions` is the number of distinct session ids of the user. |
| `FeatureTable.AddRatios` | etl/10_build_features.py:59-62 | Adding ratios keeps the table rectangular and its height, and the earlier columns stay first in order. |
| `FeatureTable.AddRatiosGet` | etl/10_build_features.py:59-62 | Each listed ratio column exists exactly when both operands exist, and then equals the ratio column of the operands. |
| `FeatureTable.AddRatiosKeeps` | etl/10_build_features.py:59-62 | Columns other than the listed ratios are left exactly as they were. |
| `FeatureTable.FinishRatio` | etl/10_build_features.py:59-62 | In the finished table each ratio cell is a/b when both are numbers and b is non-zero, else 0.0. |
| `FeatureTable.RatiosKeepScore` | etl/10_build_features.py:59-76 | Adding ratios creates no engagement column and changes neither which components exist nor any row's score. |
| `FeatureTable.ScoreIs` | etl/10_build_features.py:67-76 | A row's score is 1.0·ev_play + 0.5·ev_pause + 1.2·ev_next + 3.0·active_days + 2.0·sessions of its component values. |
| `FeatureTable.FinishEngagement` | etl/10_build_features.py:64-76 | `engagement_score` exists exactly when some component column exists, and each cell is the weighted score with absent or null components as 0. |
| `FeatureTable.MergedScore` | etl/10_build_features.py:65-76 | A merged row's score equals the engagement computed directly from that user's events. |
| `FeatureTable.FillColumn` | etl/10_build_features.py:79-83 | Non-null cells are kept. Nulls in an integer or float column become 0 and nulls in an object column become "unknown". Columns of other dtypes are unchanged. |
| `FeatureTable.FillAll` | etl/10_build_features.py:79-83 | Every column is filled by its own dtype rule; count and height are unchanged. |
| `FeatureTable.FillAllFacts` | etl/10_build_features.py:79-83 | After the fill no numeric or object column holds a null, and the column names are unchanged. |
| `FeatureTable.FinishKeeps` | etl/10_build_features.py:58-83 | A merged column passes through ratios and score untouched except for the null fill. |
| `FeatureTable.FeaturesFacts` | etl/10_build_features.py:52-83 | The output is rectangular with one row per user, starts with the seven user columns, and has no numeric or object nulls. |
| `FeatureTable.UserColumnsFirst` | etl/10_build_features.py:53-83 | The seven user columns stay first in order through merges, ratios, score and fill. |
| `FeatureTable.FeaturesTypeColumn` | etl/10_build_features.py:19-25 | In the output, `ev_<type>` exists exactly when that type occurs, and holds the user's count of that type, 0 when none. |
| `FeatureTable.FeaturesCountColumn` | etl/10_build_features.py:26-27 | Without `event_type`, the output's `ev_count` exists exactly when some event has a user, and holds the user's event count, 0 when none. |
| `FeatureTable.FeaturesActiveDays` | etl/10_build_features.py:16-35 | The output's `active_days` exists exactly when some event is dated, and holds the number of distinct dates of the user's dated events. |
| `FeatureTable.FeaturesSessionCount` | etl/10_build_features.py:38-50 | The output's `sessions` exists only with a session column and a session event, and holds the number of distinct non-null session ids of the user. |
| `FeatureTable.FeaturesSessionAverage` | etl/10_build_features.py:38-50 | The output's `avg_events_per_session` exists with `sessions`, and holds the user's mean events per session, 0 when none. |
| `FeatureTable.FeaturesSessions` | etl/10_build_features.py:38-50 | Both session columns together, row by row. |
| `FeatureTable.FeaturesRatioPresent` | etl/10_build_features.py:59-62 | A ratio column is in the output exactly when both of its event types occur. |
| `FeatureTable.FeaturesRatioCell` | etl/10_build_features.py:59-62 | When present, a ratio cell is the user's count of a divided by the count of b, 0.0 for a zero denominator. |
| `FeatureTable.FeaturesRatio` | etl/10_build_features.py:59-62 | Presence and cell values of each ratio together, in terms of the event log. |
| `FeatureTable.FeaturesEngagement` | etl/10_build_features.py:64-76 | `engagement_score` is in the output exactly when play, pause or next events occur (with `event_type`), a dated event occurs, or a session event occurs (with `session_id`). Each cell is the weighted engagement of that user's events. |
| `FeatureTable.BuildFeatures` | etl/10_build_features.py:7-83 | The in-place build (merge loop, ratio loop, score, fill loop) yields the specified table. That table is rectangular with one row per user, starts with the user columns, and has no numeric or object nulls. |
| `FeatureTable.AddRatiosInPlace` | etl/10_build_features.py:59-62 | The ratio loop on the frame leaves exactly the specified ratio table. |
| `FeatureTable.AddEngagementInPlace` | etl/10_build_features.py:65-76 | The score assignment on the frame leaves exactly the specified table. |
| `FeatureTable.FillInPlace` | etl/10_build_features.py:79-83 | The fill loop, column by column on the frame, leaves exactly the filled table. |
| `GenerateFeatures.OfUser` | etl/features/30_generate_features.py:16 | A user's group holds exactly the events carrying that id. |
| `GenerateFeatures.GenerateFeatures` | etl/features/30_generate_features.py:41-51 | One feature row per users row, in users order, each keeping its whole user record. |
| `GenerateFeatures.FeatureRowMeaning` | etl/features/30_generate_features.py:14-51 | Every row's `event_count` is the user's non-null uuids, `unique_event_types` the user's distinct types, and `recency_days` the recency or 9999 when missing. With no null uuid, types never exceed events. |
| `GenerateFeatures.LastEventBounded` | etl/features/30_generate_features.py:14-20 | A user's last event is no later than the global maximum timestamp. |
| `GenerateFeatures.RecencyNonNegative` | etl/features/30_generate_features.py:14-22 | `recency_days` is never negative. |
| `GenerateFeatures.RecencyFromLatestEvent` | etl/features/30_generate_features.py:14-21 | Recency is the whole days from the global maximum to the user's latest event: at most the days to any of the user's events, and equal for one of them. |
| `GenerateFeatures.NoEventsDefaults` | etl/features/30_generate_features.py:48-51 | A user without events gets 0 events, recency 9999 and 0 event types. |
| `GenerateFeatures.UniqueTypesAtMostCount` | etl/features/30_generate_features.py:25-38 | With every uuid present, a user's distinct types are at most the user's event count. |
| `GenerateFeatures.TypesAtMostEvents` | etl/features/30_generate_features.py:33-38 | The distinct non-null types of some events are at most their number. |
| `GenerateFeatures.OrphanEventsIgnored` | etl/features/30_generate_features.py:41-45 | Adding events of unknown users that do not raise the global maximum timestamp changes no feature row. |
| `GenerateFeatures.OrphanEventsIgnoredBy` | etl/features/30_generate_features.py:41-45 | The same for one user's joined row. |
| `GenerateFeatures.MaxDateAppend` | etl/features/30_generate_features.py:14 | Appending events that are undated or dated no later than the current maximum leaves the maximum unchanged. |
| `Cohorts.Matches` | etl/cohorts/31_cohorts_retention.py:20-24 | An event's joined rows are exactly its pairs with the users carrying its id, none when there is no such user. |
| `Cohorts.Merge` | etl/cohorts/31_cohorts_retention.py:20-24 | The left merge never loses an event row. |
| `Cohorts.MergeSound` | etl/cohorts/31_cohorts_retention.py:20-24 | Each merged row is an unmatched event or an event joined with a user carrying its id. |
| `Cohorts.MergeComplete` | etl/cohorts/31_cohorts_retention.py:20-24 | Every matching (event, user) pair appears in the merge. |
| `Cohorts.MergeIds` | etl/cohorts/31_cohorts_retention.py:20-24 | Every merged row carries the user id of some event. |
| `Cohorts.Days` | etl/cohorts/31_cohorts_retention.py:53 | `days_since_signup` is defined exactly when both the event timestamp and the signup date are. |
| `Cohorts.MaxDays` | etl/cohorts/31_cohorts_retention.py:58 | The per-user maximum is attained by one of the user's rows and bounds every non-null day count of the user; it is null when all are null. |
| `Cohorts.WindowMonotone` | etl/cohorts/31_cohorts_retention.py:55-56 | A wider window counts at least as many events, hence `events_D7 <= events_D30`. |
| `Cohorts.WindowCountZero` | etl/cohorts/31_cohorts_retention.py:55-56 | A user with no merged rows has window count 0. |
| `Cohorts.ChurnLabelMeaning` | etl/cohorts/31_cohorts_retention.py:58-59 | `churn_30d` is 0 exactly when the user has an event more than 30 days after signup. |
| `Cohorts.ChurnZeroHasLateEvent` | etl/cohorts/31_cohorts_retention.py:58-59 | Label 0 implies such a late event exists. |
| `Cohorts.LateEventGivesChurnZero` | etl/cohorts/31_cohorts_retention.py:58-59 | A late event implies label 0. |
| `Cohorts.NoEventsDefaults` | etl/cohorts/31_cohorts_retention.py:62-68 | A user without events gets `events_D7 = events_D30 = 0` and `churn_30d = 1`. |
| `Cohorts.OrphanEventIgnored` | etl/cohorts/31_cohorts_retention.py:20-66 | An event whose user id matches no user changes no metrics row. |
| `Cohorts.MetricsRowAt` | etl/cohorts/31_cohorts_retention.py:55-68 | Metrics row i is users row i with its cohort month; `events_D7` and `events_D30` equal the number of (event, users row) pairs of its id with the event at most 7 (30) whole days after signup, so `events_D7 <= events_D30`; plus the churn label's meaning and the no-event defaults. |
| `Cohorts.MetricsTable` | etl/cohorts/31_cohorts_retention.py:62-68 | The metrics table has one row per users row, in users order, with those facts for every row, including the D7/D30 window counts over the input pairs. |
| `Cohorts.ActiveInCohort` | etl/cohorts/31_cohorts_retention.py:27-36 | The active users of a (cohort, month) group are members of that cohort. |
| `Cohorts.GroupNonEmpty` | etl/cohorts/31_cohorts_retention.py:27-39 | Every retention group has at least one active user and a non-empty cohort. |
| `Cohorts.RetentionBounds` | etl/cohorts/31_cohorts_retention.py:27-40 | In every cohort row, 0 < `active_users` <= `cohort_size` and 0 < `retention_rate` <= 1. |
| `Cohorts.RetentionCoversMatches` | etl/cohorts/31_cohorts_retention.py:27-32 | Every (signup month, event month) of a matched, dated event is a cohort row. |
| `Cohorts.MetricsPathWithoutCohortFile` | etl/cohorts/31_cohorts_retention.py:71 | When `out_csv` does not contain the cohort file name, the metrics path equals `out_csv`. |
| `Cohorts.BuildRetentionCohorts` | etl/cohorts/31_cohorts_retention.py:13-71 | The cohort rows are exactly the (signup month, event month) pairs of matched, dated events; each row's `active_users` is the number of distinct users of its cohort with an event in its month, `cohort_size` the number of distinct users of its cohort, and `retention_rate` their quotient, in (0, 1]. The metrics have one row per user in order, with D7/D30 equal to the window counts over the input pairs, D7 <= D30, the churn label's meaning and the no-event defaults. The metrics path is `out_csv` with the cohort file name replaced. |
| `Cohorts.ActiveIsMatchedUsers` | etl/cohorts/31_cohorts_retention.py:20-32 | The distinct user ids of a (cohort, month) group of the merge are exactly the ids of users rows of that signup month joined to an event of that month. |
| `Cohorts.RetentionKeys` | etl/cohorts/31_cohorts_retention.py:27-39 | A (cohort month, event month) pair is a cohort row if and only if some event matched to a users row, both dated, falls in it. |
| `Cohorts.RetentionValues` | etl/cohorts/31_cohorts_retention.py:27-40 | Every cohort row holds `active_users` = distinct active users of the group, `cohort_size` = distinct users of the cohort, and `retention_rate` = their quotient. |
| `Cohorts.WindowCountPairs` | etl/cohorts/31_cohorts_retention.py:53-56 | A user's count of merged rows within a window equals the number of (event, users row) pairs of that id within the window, counted on the inputs. |
| `Cohorts.MatchesWindow` | etl/cohorts/31_cohorts_retention.py:20-24 | The window count of one event's joined rows equals its matching users rows within the window. |
| `Cohorts.MergeEventWindow` | etl/cohorts/31_cohorts_retention.py:20-24 | The same holds for one event's merge output, matched or not. |
| `PrepareModelData.KeyChecksOrder` | etl/modeling/40_prepare_model_data.py:18-21 | Duplicate feature ids fail first, then duplicate churn ids; success implies both id columns are unique and the label exists. |
| `PrepareModelData.InnerJoin` | etl/modeling/40_prepare_model_data.py:24-28 | The inner join is rectangular and carries the feature columns followed by `churn_30d` only. |
| `PrepareModelData.JoinRowsExact` | etl/modeling/40_prepare_model_data.py:24-28 | The joined rows carry exactly the ids present in both inputs, each once when feature ids are unique. |
| `PrepareModelData.InnerJoinKeys` | etl/modeling/40_prepare_model_data.py:24-28 | The merged ids are exactly the shared ids, without repeats, in the features table's order. |
| `PrepareModelData.InnerJoinRows` | etl/modeling/40_prepare_model_data.py:24-28 | Each merged row copies the feature row of its id and the churn label of that id. |
| `PrepareModelData.MergedFacts` | etl/modeling/40_prepare_model_data.py:24-28 | The merged table is well formed, has the label, and has one row per shared id. |
| `PrepareModelData.LeakAndKeysDropped` | etl/modeling/40_prepare_model_data.py:34-40 | `last_active_date` is absent after the drop whether or not it was there, and X has neither `user_id` nor `churn_30d`. |
| `PrepareModelData.Labels` | etl/modeling/40_prepare_model_data.py:39 | The labels succeed exactly when every cell converts, and then are converted cell by cell. |
| `PrepareModelData.ColumnKinds` | etl/modeling/40_prepare_model_data.py:43-44 | Categorical names are the object/category columns and numeric names the int64/float64 columns; the two lists are disjoint and other dtypes are in neither. |
| `PrepareModelData.KindsDisjoint` | etl/modeling/40_prepare_model_data.py:43-44 | No column is both categorical and numeric. |
| `PrepareModelData.Levels` | etl/modeling/40_prepare_model_data.py:50 | A column's levels are exactly its distinct string values, each once. |
| `PrepareModelData.OneHot` | etl/modeling/40_prepare_model_data.py:50 | Levels are sorted and distinct. A column with k levels yields k−1 boolean indicators named `col_level`, the first level dropped. At most one indicator is set per row, and one is set exactly when the value is a later level. |
| `PrepareModelData.DummyAtMostOne` | etl/modeling/40_prepare_model_data.py:50 | At most one indicator of a column is set in any row. |
| `PrepareModelData.DummyAnyIff` | etl/modeling/40_prepare_model_data.py:50 | Some indicator is set exactly when the row's value is a level other than the first. |
| `PrepareModelData.EncodingColumns` | etl/modeling/40_prepare_model_data.py:50 | After encoding, the non-categorical columns come first in order, then the indicators. Every output column is a kept column or an indicator of a later level, every such indicator is present, and no categorical column remains. |
| `PrepareModelData.EncodedSound` | etl/modeling/40_prepare_model_data.py:50 | Every encoded column is a boolean indicator of a non-first level of some categorical column. |
| `PrepareModelData.EncodedComplete` | etl/modeling/40_prepare_model_data.py:50 | Every non-first level of every categorical column has its indicator. |
| `PrepareModelData.DummiesKeepNumeric` | etl/modeling/40_prepare_model_data.py:50 | Every numeric column survives the encoding. |
| `PrepareModelData.NumericKeptFirst` | etl/modeling/40_prepare_model_data.py:50 | A numeric column reaches the encoded table unchanged. |
| `PrepareModelData.ScaleRewrites` | etl/modeling/40_prepare_model_data.py:53-54 | Every scaled column becomes the scaler's output, as float64. |
| `PrepareModelData.ScaleKeepsOthers` | etl/modeling/40_prepare_model_data.py:53-54 | Scaling keeps the column names and leaves every unscaled column unchanged. |
| `PrepareModelData.ScalingOnlyNumeric` | etl/modeling/40_prepare_model_data.py:50-54 | The design matrix has the encoded names. The numeric columns are the scaler's output; every other column is as encoded. |
| `PrepareModelData.ScaleInPlace` | etl/modeling/40_prepare_model_data.py:54 | Assigning the scaled columns into the frame leaves exactly the scaled table. |
| `PrepareModelData.SplitRows` | etl/modeling/40_prepare_model_data.py:57-59 | A split part copies the chosen rows of every column. |
| `PrepareModelData.FinishAligned` | etl/modeling/40_prepare_model_data.py:39-59 | The train and test matrices have as many rows as their label lists, and each label is y at the split's row index. |
| `PrepareModelData.SplitAligned` | etl/modeling/40_prepare_model_data.py:24-59 | On success, y_train and y_test are the merged table's labels at the split's rows, row-aligned with X_train and X_test. |
| `PrepareModelData.EncodeScaleSplit` | etl/modeling/40_prepare_model_data.py:43-59 | Encoding, in-place scaling and the split compute the specified result. |
| `PrepareModelData.PrepareModelData` | etl/modeling/40_prepare_model_data.py:17-59 | The whole stage, including the in-place leakage drop and scaling, computes the specified result. |
| `TrainModel.FirstHit` | etl/modeling/41_train_churn_model.py:46-51 | The scan returns the first index meeting both floors, or none when no index does. |
| `TrainModel.FirstHitIsFirst` | etl/modeling/41_train_churn_model.py:46-51 | A qualifying index with no earlier qualifying one is the scan's result. |
| `TrainModel.F1s` | etl/modeling/41_train_churn_model.py:56-63 | One F1 score per threshold: 2pr/(p+r), 0 when p+r = 0. |
| `TrainModel.Pick` | etl/modeling/41_train_churn_model.py:40-65 | A threshold is returned exactly when the curve has thresholds, and it is one of them. |
| `TrainModel.PickThresholdByRecall` | etl/modeling/41_train_churn_model.py:40-65 | The two loops (first-hit scan, F1 list) return the specified pick, and the first qualifying point's threshold whenever one exists. |
| `TrainModel.PickIsFirstQualifying` | etl/modeling/41_train_churn_model.py:41-53 | If some point meets both floors, the result is the threshold of the first such point. |
| `TrainModel.LowestQualifyingThreshold` | etl/modeling/41_train_churn_model.py:41-53 | With ascending thresholds, the result is at most every qualifying threshold: the lowest one. |
| `TrainModel.PickFallsBackToF1` | etl/modeling/41_train_churn_model.py:55-65 | When no point qualifies, the result is the threshold of the first F1 maximum. |
| `TrainModel.PickIgnoresLastPoint` | etl/modeling/41_train_churn_model.py:43-57 | The pick depends only on points that have a threshold; the curve's final point is never examined. |
| `TrainModel.RaisingFloorsNeverEarlier` | etl/modeling/41_train_churn_model.py:46-51 | While the higher floors are feasible, raising either floor never selects an earlier index. |
| `TrainModel.Predict` | etl/modeling/41_train_churn_model.py:22 | The prediction is 1 exactly when the probability is at least the threshold, else 0. |
| `TrainModel.ConfusionSums` | etl/modeling/41_train_churn_model.py:21-38 | On success, tn+fp+fn+tp = n, tp+fn = positive support, tn+fp = negative support, both supports positive, and the reported threshold is the one used. |
| `TrainModel.ArtifactsMatchEvaluation` | etl/modeling/41_train_churn_model.py:146-198 | Each artifact lists the training columns in order and carries the evaluated threshold. Both thresholds are picked with recall 0.60 and precision 0.15, each from its own curve. |
| `TrainModel.TrainFailures` | etl/modeling/41_train_churn_model.py:143-188 | Training succeeds exactly when both curves have thresholds, the probability lists match the test labels, and the labels are binary with both classes present. |
| `Common.FirstArgMax` | etl/modeling/41_train_churn_model.py:64 | `np.argmax`: the index of a maximum, and no earlier element is as large. |
| `PredictChurn.LoadArtifact` | etl/modeling/42_predict_churn.py:9-16 | Loading succeeds exactly for a dict with `model` and `features`. The threshold defaults to 0.5 when absent and is taken as given otherwise. |
| `PredictChurn.DropAll` | etl/modeling/42_predict_churn.py:46-48 | After the drops, the columns are exactly the old ones not named, and the height is unchanged. |
| `PredictChurn.DropAllGet` | etl/modeling/42_predict_churn.py:46-48 | Every column not dropped is unchanged. |
| `PredictChurn.DropLabelsInPlace` | etl/modeling/42_predict_churn.py:46-48 | The drop loop on the frame leaves exactly the specified table. |
| `PredictChurn.WithMissingGet` | etl/modeling/42_predict_churn.py:20-22 | After adding the missing features, a feature column is the input's own column, or zeros when it was missing. |
| `PredictChurn.WithMissingAppends` | etl/modeling/42_predict_churn.py:20-22 | The caller's existing columns stay first, in order and unchanged; anything added comes after them. |
| `PredictChurn.AlignColumns` | etl/modeling/42_predict_churn.py:18-25 | The aligned table has exactly the feature columns in feature order, zeros for absent ones, and extras dropped. |
| `PredictChurn.AlignFeatures` | etl/modeling/42_predict_churn.py:18-25 | The loop adds the missing columns to the caller's frame in place and returns the aligned table. |
| `PredictChurn.PredictionRows` | etl/modeling/42_predict_churn.py:55-65 | One output row per input row in order, with the id copied and `pred_churn = 1` exactly when `proba_churn >= threshold`. Each row also carries the threshold, model file and stamp. |
| `PredictChurn.RiskierOrSamePreorder` | etl/modeling/42_predict_churn.py:76 | Descending probability is a total preorder. |
| `PredictChurn.TopN` | etl/modeling/42_predict_churn.py:76 | The export holds min(N, rows) rows. |
| `PredictChurn.TopNHighest` | etl/modeling/42_predict_churn.py:76 | The top rows are in non-increasing probability order, drawn from the output, and no left-out row has a higher probability than a kept one. |
| `PredictChurn.TopPathSuffix` | etl/modeling/42_predict_churn.py:75 | For a path ending in its only ".csv", the top-N path is `<stem>_top<N>.csv`. |
| `PredictChurn.PredictErrors` | etl/modeling/42_predict_churn.py:11-43 | A bad artifact fails first; otherwise a missing id column fails. |
| `PredictChurn.PredictRows` | etl/modeling/42_predict_churn.py:42-65 | With a good artifact and an id column, scoring succeeds with one row per input row. Each row has the input's id, the model's probability on the label-free, aligned input, the thresholded prediction, the threshold and the model file's basename. |
| `PredictChurn.PredictTop` | etl/modeling/42_predict_churn.py:74-76 | The top-N export exists exactly when N > 0, at the replaced path, with min(N, rows) rows drawn from the output. |
| `PredictChurn.Predict` | etl/modeling/42_predict_churn.py:27-76 | The in-place drops and alignment on the caller's frame compute the specified scoring, and leave the frame without label columns and with the missing features added. |
| `Common.Basename` | etl/modeling/42_predict_churn.py:64 | The basename has no '/', is a suffix of the path, and is preceded by '/' when shorter than the path. |
| `UserSegmentation.Present` | etl/segmentation/51_user_segmentation.py:30 | The chosen variables are exactly the candidates present in the table. |
| `UserSegmentation.PresentKeepsOrder` | etl/segmentation/51_user_segmentation.py:30 | The chosen variables keep candidate-list order. |
| `UserSegmentation.PresentNone` | etl/segmentation/51_user_segmentation.py:30-32 | With no candidate present, the choice is empty. |
| `UserSegmentation.FillZero` | etl/segmentation/51_user_segmentation.py:34 | A filled column has no nulls and keeps every non-null value. |
| `UserSegmentation.Variables` | etl/segmentation/51_user_segmentation.py:34 | The clustering matrix holds exactly the chosen variables, in order, each null-filled. |
| `UserSegmentation.LabelProblem` | etl/segmentation/51_user_segmentation.py:46-48 | A clustering is usable exactly when k fits the rows, there is one label per row, and the number of distinct labels is between 2 and rows−1, as silhouette scoring requires. |
| `UserSegmentation.Silhouettes` | etl/segmentation/51_user_segmentation.py:43-48 | On success there is one silhouette per k tried. |
| `UserSegmentation.SilhouettesScoreEveryK` | etl/segmentation/51_user_segmentation.py:43-48 | Each entry is the silhouette of that k's clustering, and every clustering was usable. |
| `UserSegmentation.SilhouettesStopAtError` | etl/segmentation/51_user_segmentation.py:44-48 | The first failing k ends the loop with that failure. |
| `UserSegmentation.ChooseK` | etl/segmentation/51_user_segmentation.py:43-69 | The k loop with appends computes the specified choice. |
| `UserSegmentation.ChosenKIsFirstBest` | etl/segmentation/51_user_segmentation.py:43-69 | k lies in 2..9, its silhouette is maximal, and no smaller k reaches it. |
| `UserSegmentation.ClusterIdsAscending` | etl/segmentation/51_user_segmentation.py:82-88 | The summary's cluster ids are exactly the labels used, strictly ascending. |
| `UserSegmentation.Summary` | etl/segmentation/51_user_segmentation.py:82-89 | One summary row per cluster id in order, with `user_count` that cluster's row count. |
| `UserSegmentation.SummaryCoversUsers` | etl/segmentation/51_user_segmentation.py:89 | The user counts sum to the number of users. |
| `UserSegmentation.SummaryClustersNonEmpty` | etl/segmentation/51_user_segmentation.py:89 | Every summary row counts at least one user. |
| `UserSegmentation.SegmentedShape` | etl/segmentation/51_user_segmentation.py:19-89 | A missing `user_id` fails, then a missing candidate set fails. On success the variables are the present candidates, k is in 2..9, there is one label per user, and the counts sum to the users. |
| `UserSegmentation.SegmentedSuccess` | etl/segmentation/51_user_segmentation.py:25-89 | The success half of the same statement. |
| `UserSegmentation.SegmentUsers` | etl/segmentation/51_user_segmentation.py:18-89 | The stage computes the specified segmentation. On success the frame gains exactly the `cluster` column; on failure it is unchanged. |
| `AuditQuality.MetricsErrors` | etl/20_auditoria_calidad.py:17-19 | A missing users `user_id` fails first, then a missing `event_uuid`; the counters exist exactly when the three id columns do. |
| `AuditQuality.DuplicatesCountNulls` | etl/20_auditoria_calidad.py:22-23 | The duplicate counter (rows − distinct non-null values) counts every null row too. |
| `AuditQuality.DuplicatesZero` | etl/20_auditoria_calidad.py:22-23 | The duplicate counter is 0 exactly when the column has no null and no repeated value. |
| `AuditQuality.ValidAndOrphans` | etl/20_auditoria_calidad.py:26-28 | Valid + orphan = total events, and orphans are the events whose `user_id` is not among the users' ids. |
| `AuditQuality.LessCountRows` | etl/20_auditoria_calidad.py:32-36 | Each temporal counter equals the number of row positions whose two cells compare strictly less (nulls never do). |
| `AuditQuality.TemporalCounters` | etl/20_auditoria_calidad.py:31-36 | The two temporal counters, in that order, appear exactly when all three timestamp columns exist. |
| `AuditQuality.MissingDate` | etl/20_auditoria_calidad.py:8-9 | Reading succeeds exactly when every parsed date column exists. |
| `AuditQuality.TemporalAlwaysReported` | etl/20_auditoria_calidad.py:9-36 | Since reading requires the three timestamp columns, a successful audit always reports nine counters. |
| `AuditQuality.DomainsReported` | etl/20_auditoria_calidad.py:39-43 | Only listed columns are reported, each with its own entry, and every listed column present in either table is reported. |
| `AuditQuality.DomainPrefersUsers` | etl/20_auditoria_calidad.py:42-43 | A column in users is measured on users, as its number of distinct non-null values. |
| `AuditQuality.CollectDomains` | etl/20_auditoria_calidad.py:39-43 | The domain loop computes the specified list. |
| `AuditQuality.MetricLines` | etl/20_auditoria_calidad.py:51-52 | One table line per counter, in order. |
| `AuditQuality.DomainLines` | etl/20_auditoria_calidad.py:57-58 | One table line per domain, in order. |
| `AuditQuality.ReportRowOrder` | etl/20_auditoria_calidad.py:46-58 | The report has 7 + counters + domains lines; counter i is on line 4+i and domain j on line 7+counters+j. |
| `AuditQuality.AppendMetricLines` | etl/20_auditoria_calidad.py:51-52 | The append loop adds exactly the counter lines. |
| `AuditQuality.AppendDomainLines` | etl/20_auditoria_calidad.py:57-58 | The append loop adds exactly the domain lines. |
| `AuditQuality.BuildReport` | etl/20_auditoria_calidad.py:46-58 | The appends produce the specified report. |
| `AuditQuality.AuditQuality` | etl/20_auditoria_calidad.py:7-58 | The stage computes the specified audit. |
| `AuditRelational.ValidEvents` | etl/22_auditoria_relacional.py:13 | Valid events are exactly the events whose `user_id` occurs among the users' ids. |
| `AuditRelational.ValidCountMatches` | etl/22_auditoria_relacional.py:13 | The number of valid events is the count of events with a known id. |
| `AuditRelational.ValidPlusOrphan` | etl/22_auditoria_relacional.py:13-14 | Valid + orphan = total events; orphans are never negative and are the events with an unknown id. |
| `AuditRelational.ActiveAtMostUsers` | etl/22_auditoria_relacional.py:17-18 | Active users never exceed total users, so `inactive` is never negative, and active + inactive = users. |
| `AuditRelational.GroupKeys` | etl/22_auditoria_relacional.py:21 | The per-user groups are exactly the non-null ids of valid events, each once. |
| `AuditRelational.EventsPerUser` | etl/22_auditoria_relacional.py:21 | One count per group, each being that user's valid events with a non-null uuid. |
| `AuditRelational.GroupsAreActiveUsers` | etl/22_auditoria_relacional.py:17-21 | There are as many groups as active users. |
| `AuditRelational.PerUserSumBounded` | etl/22_auditoria_relacional.py:21 | The per-user counts sum to at most the valid events. |
| `AuditRelational.DistPathSuffix` | etl/22_auditoria_relacional.py:22 | For a path ending in its only ".md", the distribution file is `<stem>_dist.csv`. |
| `AuditRelational.ReportOrder` | etl/22_auditoria_relacional.py:25-39 | The six totals are lines 1-6 in fixed order; statistic i is on line 10+i, and the report has 10 + statistics lines. |
| `AuditRelational.BuildReport` | etl/22_auditoria_relacional.py:25-39 | The appends produce the specified report. |
| `AuditRelational.RelateErrors` | etl/22_auditoria_relacional.py:13-21 | A missing events `user_id` fails; the audit succeeds exactly when both `user_id` columns and `event_uuid` exist. |
| `AuditRelational.AuditRelational` | etl/22_auditoria_relacional.py:5-43 | The stage computes the specified audit. |
| `Common.Missing` | etl/01_clean_users.py:16 | The missing list holds exactly the required names absent from the columns. |
| `Common.MaxOf` | etl/features/30_generate_features.py:14 | The maximum skips nulls, is null only when all are, is one of the values, and bounds them all. |
| `Records.WholeDays` | etl/features/30_generate_features.py:21 | `.dt.days` is the floor of a duration in days: d days ≤ delta < d+1 days. |
| `Common.ReplaceAllAbsent` | etl/cohorts/31_cohorts_retention.py:71 | Replacing a pattern that does not occur leaves the string unchanged. |
| `Sorting.SortBySorted` | etl/01_clean_users.py:47 | Sorting by a total preorder yields a sorted sequence. |
| `Sorting.SortKeepFirstLeast` | etl/01_clean_users.py:47-48 | Keeping the first row per key after a sort keeps a least row of each key. |
| `Sorting.SortKeepFirstCovers` | etl/01_clean_users.py:47-48 | Every key of the input keeps a row. |
| `Sorting.SortedUnique` | etl/10_build_features.py:22 | The pivot's column values are exactly the inputs, each once. |
| `Frames.DataFrame.DropInPlace` | etl/modeling/40_prepare_model_data.py:36 | `drop(columns=[c], inplace=True)`: the frame becomes the table without that column. |
| `Frames.DataFrame.AssignInPlace` | etl/modeling/40_prepare_model_data.py:54 | Column assignment replaces the named column or appends it. |

## Left out

- File and process I/O: `read_csv` and its dtype inference, `to_csv`, `joblib`, `json.dump`, `os.makedirs`, `print`, the argparse entry points and the hard-coded default paths. Tables arrive as values, and output paths are computed but not written.
- Date parsing (`to_datetime` with coercion and format inference, `dateutil`) and the wall clock (`now`, `utcnow`). Parsed dates are `Option<int>` seconds, and the scoring and report stamps are parameters.
- The timestamp reparse loop of `validate_events` (etl/02_clean_events.py:21-23): the rows arrive already parsed, so the loop and its in-place reassignment are not modelled.
- Library numerics are parameters, and their internals and failure modes are not modelled: the classifiers and their fitting, `predict_proba`, `precision_recall_curve`, `roc_auc_score`, `classification_report`, `StandardScaler`, `train_test_split` (stratification and seed), and KMeans, its inertia and `silhouette_score`.
- Plotting (`safe_plot_curves`, the elbow and silhouette figures), the temporal audit, the cluster visuals and the scoring QA script are outside this model.
- Floating-point behaviour: reals are exact, and rounding, `describe()` statistics (a parameter of the relational audit), the cluster means and `pct_total` are not computed.
- The dtype alignment of `user_id` between users and events (etl/10_build_features.py:12-13): ids are one integer type throughout.
- `astype(int)` of labels: every number converts by truncation toward zero (0.7 becomes 0, -1.5 becomes -1) and booleans become 0/1; only null, string and time cells give `BadLabel`, whereas pandas also raises on NaN and converts numeric strings. Labels outside {0, 1} reach evaluation as `NotBinary`.
- In-place updates of the typed-row stages are modelled as pure functions from rows to new rows, so update in place and aliasing are not captured there: the cohort stage's column assignments and in-place `fillna` (etl/cohorts/31_cohorts_retention.py:14,17,40,53,68), `generate_features`' `drop` and `fillna` with `inplace=True` (etl/features/30_generate_features.py:22,48), and `validate_users`' `df.loc` date swap and `sort_values(inplace=True)` (etl/01_clean_users.py:39,47).
- The `signup_date` check of the cohort stage (etl/cohorts/31_cohorts_retention.py:48-49) cannot fail: the merge at line 21 already selects that column, so the model has no error path there.
- Groupby output order is modelled as first appearance or ascending key where the result is order-sensitive; pandas' exact row order for `pivot_table` rows and merge results with duplicate keys is not modelled beyond that.
- Cohorts.Retention: the retention table is a map from (cohort month, event month) to its row, so it has no row order; the source writes the rows in sorted groupby key order (etl/cohorts/31_cohorts_retention.py:28), kept by the inner merge at line 39.
- PredictChurn.TopN: ties in `proba_churn` keep input order, which is one of the orders pandas' default sort may produce; the model does not capture the others.
- Merge column-name clashes (`_x`/`_y` suffixes) in the feature and model-data merges are not modelled: a features table that already holds `churn_30d` is an error in the model.
- Category dtype metadata: a `category` column's levels are its distinct values present, not its declared categories.
- TrainModel.RaisingFloorsNeverEarlier: needs the higher floors to be feasible; with only the lower floors feasible, the F1 fallback index is unrelated.
