# Phishing site detector: URL analytics and prediction panel

A Dafny model of the computational core of the phishing-URL dashboard
(`app.py`). The dashboard asks a pre-trained classifier whether a link
is "good" or "bad" and shows the verdict. It also draws summaries of a
labelled table of URLs, split into the "bad" rows and the "good" rows.
The model covers:

- the label partitions and the two row counts shown as metrics;
- the top-level domain of a URL, `url.split('.')[-1]`, and the ten most
  frequent domains of each partition, `value_counts().index[:10]`;
- Python's `str.count` and the keyword frequencies for `login`, `bank`,
  `search`, `secure` and `account`;
- the count of `string.punctuation` characters in a URL, and the
  `special_char_count` column that the page adds to the table in place;
- the prediction wrapper, which turns any exception into `None`, and the
  branch that picks the message shown for the result.

Modules, one per component:

- `Wrappers` (`wrappers.dfy`): `Option`, which stands for Python's `None`-or-value.
- `UrlText` (`url_text.dfy`): `str.split` with `join` as its inverse, the
  top-level domain, `str.count` and the punctuation count.
- `Dataset` (`dataset.dfy`): rows, label partitions and label counts. Its
  `PhishFrame` class holds the table and the column added to it.
- `Analytics` (`analytics.dfy`): keyword frequency tables and the top-ten
  domain selection.
- `Prediction` (`prediction.dfy`): the classifier wrapper and the message
  dispatch.

Behaviour of the code that a reader might not expect:

- The "top-level domain" is whatever follows the last dot of the whole URL,
  path included: for `example.com/index.html` it is `html`
  (`UrlText.TldAfterLastDot`).
- Keyword counting uses Python's `str.count`. It counts non-overlapping
  occurrences, scanning left to right, so `"aaa".count("aa")` is 1, not 2
  (`UrlText.NonOverlapping`). An empty keyword matches `len(url) + 1` times.
- Rows are partitioned by `Label == 'bad'` and `Label == 'good'`. A row with
  any other label is in neither partition; it is not an error and it is not
  assigned to one of them.
- A first predicted label other than "good" or "bad" shows no message at all.
  An empty prediction list makes `result[0]` raise `IndexError` outside the
  `try`. Both are modelled as their own outcomes, `NoMessage` and `IndexError`.
- If the pickle fails to load, the name `classifier` is never bound. The
  later `predict` call then raises `NameError`, the wrapper catches it, and
  the page shows "Unable to predict".

## Model

| member | source | states |
|---|---|---|
| `UrlText.Split` | app.py:109-110 | `str.split('.')` gives at least one piece, exactly one when the string has no dot, and no piece contains a dot |
| `UrlText.SplitPieceCount` | app.py:109-110 | a split has one more piece than the string has separators |
| `UrlText.JoinSplit` | app.py:109-110 | joining the pieces of a split with the separator gives back the original string |
| `UrlText.SplitJoin` | app.py:109-110 | splitting the join of dot-free pieces gives back those pieces |
| `UrlText.LastPiece` | app.py:109-110 | the last piece of a split is a separator-free suffix; when the string contains a separator, one stands just before that suffix; otherwise the last piece is the whole string |
| `UrlText.Tld` | app.py:109-110 | the domain is a dot-free suffix of the URL; a dot precedes it when the URL has a dot; it is the whole URL when the URL has none |
| `UrlText.TldUnique` | app.py:109-110 | any string with those properties is the domain, so they define `url.split('.')[-1]` completely |
| `UrlText.TldAfterLastDot` | app.py:109-110 | for `host + "." + t` with a dot-free `t`, the domain is `t` |
| `UrlText.PyCount` | app.py:126 | `str.count` with an empty keyword is `len + 1`; with a non-empty keyword, count × keyword length ≤ URL length |
| `UrlText.PyCountPositive` | app.py:126 | a non-empty keyword is counted at least once exactly when it occurs in the URL |
| `UrlText.NonOverlapping` | app.py:126 | overlapping occurrences are not counted twice: `"aaa".count("aa") == 1` and `"aaaa".count("aa") == 2` |
| `UrlText.PunctuationIsPrintableNonAlnum` | app.py:183 | every character in `string.punctuation` is printable ASCII, and none is a space, letter or digit |
| `UrlText.CountSpecial` | app.py:182-184 | the special-character count is at most the URL's length, and equals it exactly when every character is punctuation |
| `UrlText.CountSpecialAppend` | app.py:182-184 | the special-character count is additive over string concatenation |
| `UrlText.CountSpecialAlnum` | app.py:182-184 | a URL made only of letters and digits has a count of 0 |
| `Dataset.Filter` | app.py:106-107 | a partition is no longer than the table |
| `Dataset.FilterMembers` | app.py:106-107 | a row is in a partition exactly when it is a row of the table with that label |
| `Dataset.Urls` | app.py:109-110 | the `URL` column has one entry per row, and each entry is that row's URL, in row order |
| `Dataset.FilterKeepsOrder` | app.py:106-107 | a partition is a subsequence of the table, so it keeps the original row order |
| `Dataset.FilterAppend` | app.py:106-107 | partitioning a concatenated table concatenates the partitions of the two halves |
| `Dataset.LabelCounts` | app.py:94-95 | `num_bad_urls + num_good_urls` is at most the number of rows |
| `Dataset.PartitionsBounded` | app.py:94-95 | the two partitions hold at most all the rows; they hold exactly all of them if and only if every label is "good" or "bad" |
| `Dataset.OtherLabelInNeither` | app.py:94-95 | a row whose label is neither "good" nor "bad" is in neither partition |
| `Dataset.SpecialCounts` | app.py:187 | the column has one entry per URL, in order, and each entry is at most that URL's length |
| `Dataset.SelectByLabel` | app.py:188-189 | selecting a column by label yields one entry per row of that label's partition |
| `Dataset.SelectSpecialCounts` | app.py:187-189 | computing the column for the whole table and then selecting by label gives the counts of that label's partition |
| `Dataset.PhishFrame.constructor` | app.py:79 | the loaded table holds the given rows and has no special-character column yet |
| `Dataset.PhishFrame.AddSpecialCharCount` | app.py:187 | after the call the column exists and holds every row's special-character count, in row order |
| `Dataset.PhishFrame.SpecialCharCountsOf` | app.py:188-189 | the column restricted to one label equals the special-character counts of that label's partition |
| `Analytics.CountKeywords` | app.py:125-126 | with a non-empty keyword, the total × keyword length is at most the URLs' total length; with an empty keyword, the total is the total length plus the number of URLs |
| `Analytics.CountKeywordsEmpty` | app.py:125-126 | the count over no URLs is 0 |
| `Analytics.CountKeywordsAppend` | app.py:125-126 | keyword counts are additive over concatenation of URL lists |
| `Analytics.CountKeywordsPositive` | app.py:125-126 | a non-empty keyword's count is positive exactly when some URL contains the keyword |
| `Analytics.KeywordCounts` | app.py:128-131 | the dictionary has exactly the five keys `login`, `bank`, `search`, `secure` and `account`; each value is that keyword's count over the URLs |
| `Analytics.KeywordFrequency` | app.py:130-131 | one partition's chart has the same five keys, and each value is the count over that partition's URLs |
| `Analytics.KeywordFrequencyAppend` | app.py:130-131 | each keyword's partition count for a table split in two is the sum of its counts for the two halves |
| `Analytics.Tlds` | app.py:109-110 | the domain column has one entry per URL, and each entry is that URL's domain |
| `Analytics.Distinct` | app.py:113 | the distinct values have no duplicates and are exactly the values that occur |
| `Analytics.MostFrequent` | app.py:113 | the chosen candidate is one of the candidates, and no candidate is more frequent |
| `Analytics.Top` | app.py:113 | `value_counts().index[:n]` returns min(n, number of candidates) values, with no duplicates, all from the candidates, in non-increasing frequency; no candidate left out is more frequent than a kept one; fewer than n are kept only when all are kept |
| `Analytics.TldsFromPartition` | app.py:106-110 | every domain taken from a partition belongs to one of that partition's rows |
| `Analytics.TopTlds` | app.py:106-113 | a partition's top-domain list has at most 10 entries and no duplicates; each entry is the domain of a row with that label; counts do not increase along the list; no domain left out has a higher count than a kept one; if fewer than 10 are kept, every domain of the partition is kept |
| `Analytics.TwoRowScenario` | app.py:106-114 | a table with one good row and one bad row charts just the bad row's domain for the bad partition and just the good row's domain for the good partition |
| `Prediction.PredictWebsiteStatus` | app.py:37-46 | the result is `None` exactly when the classifier is missing or raises; otherwise it is the classifier's output, unchanged |
| `Prediction.ShowResult` | app.py:69-75 | `None` shows "unable to predict"; a first label of "good" shows safe and "bad" shows malicious; any other first label shows nothing; an empty list raises `IndexError`; each holds in both directions |
| `Prediction.PredictionPanel` | app.py:64-75 | the panel shows "unable to predict" exactly when the button was not pressed, the model did not load, or the classifier raised; it shows safe (or malicious) exactly when the button was pressed and the classifier's first label was "good" (or "bad"); it shows nothing exactly when the button was pressed and the first label was anything else; it raises `IndexError` exactly when the button was pressed and the classifier returned an empty list |

## Left out

- Page configuration, CSS, layout, text input, button and metric widgets are UI only. The button press and the user's input are parameters of `Prediction.PredictionPanel`.
- `pickle.load` of the model file and the classifier's internals are opaque foreign code. The classifier is an arbitrary function that returns labels or raises, or is absent when loading failed.
- The `print` diagnostics inside `predict_website_status` are terminal output with no effect on the result.
- `pd.read_csv` is file I/O. The table is a given sequence of (URL, label) rows, and a missing or malformed file is not modelled. URL and label cells are taken to be strings; pandas `NaN` cells are not modelled.
- The pandas `describe()` length statistics (mean, std, quartiles) and the special-character means are floating point. The model provides the per-partition special-character counts that the means are taken over, but not the means themselves.
- `Analytics.Top`: which of several equally frequent domains `value_counts` lists first is up to the library. The model takes the one seen first, and no contract depends on that choice.
- Plotting and chart annotation (matplotlib, seaborn), and the unused `nltk` imports, produce no values the rest of the page uses.
- Python strings are sequences of code points and are modelled as Dafny `string`. Label comparison is plain string equality.
